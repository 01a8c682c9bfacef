/** Sizzle.escape and the unescaping that selector parsing applies, on strings of UTF-16 code
    units (the serialization idioms of section 2.1 of CSSOM). */
module Escape {
  import opened Collections

  type Unit = u: nat | u < 0x10000

  type Text = seq<Unit>

  const NUL: Unit := 0
  const SPACE: Unit := 0x20
  const HYPHEN: Unit := 0x2D
  const BACKSLASH: Unit := 0x5C
  const REPLACEMENT: Unit := 0xFFFD

  predicate IsDigit(u: Unit) { 0x30 <= u <= 0x39 }

  /** `\w` */
  predicate IsWord(u: Unit) {
    IsDigit(u) || 0x41 <= u <= 0x5A || u == 0x5F || 0x61 <= u <= 0x7A
  }

  predicate IsControl(u: Unit) { u <= 0x1F || u == 0x7F }

  /** The characters the last alternative of rcssescape matches. */
  predicate IsSpecial(u: Unit) {
    !IsControl(u) && u < 0x7F && !IsWord(u) && u != HYPHEN
  }

  // ----- Hexadecimal

  /** A digit of Number.prototype.toString(16). */
  function HexDigit(d: nat): Unit
    requires d < 16
  {
    if d < 10 then 0x30 + d else 0x61 + d - 10
  }

  function Hex(n: nat): Text
    decreases n
  {
    if n < 16 then [HexDigit(n)] else Hex(n / 16) + [HexDigit(n % 16)]
  }

  predicate IsHex(u: Unit) {
    IsDigit(u) || 0x41 <= u <= 0x46 || 0x61 <= u <= 0x66
  }

  function HexValue(u: Unit): nat
    requires IsHex(u)
  {
    if IsDigit(u) then u - 0x30 else if u <= 0x46 then u - 0x41 + 10 else u - 0x61 + 10
  }

  function ParseHex(s: Text): nat
    requires forall i :: 0 <= i < |s| ==> IsHex(s[i])
  {
    if s == [] then 0 else 16 * ParseHex(s[..|s| - 1]) + HexValue(s[|s| - 1])
  }

  // ----- Escaping

  /** `"\\" + ch.charCodeAt().toString( 16 ) + " "` */
  function CodePoint(u: Unit): Text {
    [BACKSLASH] + Hex(u) + [SPACE]
  }

  function EscapeUnit(u: Unit): Text {
    if u == NUL then [REPLACEMENT]
    else if IsControl(u) then CodePoint(u)
    else if IsSpecial(u) then [BACKSLASH, u]
    else [u]
  }

  function EscapeRest(s: Text): Text {
    if s == [] then [] else EscapeUnit(s[0]) + EscapeRest(s[1..])
  }

  /** Sizzle.escape: the anchored alternatives of rcssescape apply at the start only. */
  function Escape(s: Text): Text {
    if s == [HYPHEN] then [BACKSLASH, HYPHEN]
    else if s != [] && IsDigit(s[0]) then CodePoint(s[0]) + EscapeRest(s[1..])
    else if |s| > 1 && s[0] == HYPHEN && IsDigit(s[1]) then [HYPHEN] + CodePoint(s[1]) + EscapeRest(s[2..])
    else EscapeRest(s)
  }

  // ----- Unescaping

  predicate IsWhitespace(u: Unit) {
    u == SPACE || u == 9 || u == 10 || u == 12 || u == 13
  }

  /** What `.` does not match. */
  predicate IsLineTerminator(u: Unit) {
    u == 10 || u == 13 || u == 0x2028 || u == 0x2029
  }

  /** How many hexadecimal digits, at most `limit`, `s` starts with. */
  function HexRun(s: Text, limit: nat): (n: nat)
    ensures n <= |s| && n <= limit
    ensures forall i :: 0 <= i < n ==> IsHex(s[i])
    ensures n < limit && n < |s| ==> !IsHex(s[n])
  {
    if s == [] || limit == 0 || !IsHex(s[0]) then 0 else 1 + HexRun(s[1..], limit - 1)
  }

  /** Bitwise or. */
  function Or(a: nat, b: nat): nat {
    if a == 0 && b == 0 then 0
    else 2 * Or(a / 2, b / 2) + if a % 2 == 1 || b % 2 == 1 then 1 else 0
  }

  /** funescape on a code point: one unit, or a surrogate pair. */
  function FromCode(code: nat): Text {
    if code < 0x10000 then [code]
    else [Mask((code - 0x10000) / 0x400, 0xD800), Mask((code - 0x10000) % 0x400, 0xDC00)]
  }

  /** The code unit that String.fromCharCode makes of `bits | mask`. */
  function Mask(bits: nat, mask: nat): Unit {
    Or(bits, mask) % 0x10000
  }

  /** `str.replace( runescape, funescape )` */
  function Unescape(s: Text): Text
    decreases |s|
  {
    if s == [] then []
    else if s[0] != BACKSLASH || |s| == 1 then [s[0]] + Unescape(s[1..])
    else
      var n := HexRun(s[1..], 6);
      if n > 0 then
        var end := if n + 1 < |s| && IsWhitespace(s[n + 1]) then n + 2 else n + 1;
        FromCode(ParseHex(s[1..n + 1])) + Unescape(s[end..])
      else if IsWhitespace(s[1]) || !IsLineTerminator(s[1]) then [s[1]] + Unescape(s[2..])
      else [s[0]] + Unescape(s[1..])
  }

  // ----- Printing and parsing

  lemma {:induction false} HexIsHex(n: nat)
    ensures |Hex(n)| > 0 && forall i :: 0 <= i < |Hex(n)| ==> IsHex(Hex(n)[i])
    decreases n
  {
    if n >= 16 {
      HexIsHex(n / 16);
    }
  }

  lemma {:induction false} ParseOfHex(n: nat)
    ensures (forall i :: 0 <= i < |Hex(n)| ==> IsHex(Hex(n)[i])) && ParseHex(Hex(n)) == n
    decreases n
  {
    HexIsHex(n);
    if n >= 16 {
      ParseOfHex(n / 16);
      assert Hex(n)[..|Hex(n)| - 1] == Hex(n / 16);
    } else {
      assert Hex(n)[..0] == [];
    }
  }

  lemma HexShorter(n: nat)
    ensures |Hex(n)| == if n < 16 then 1 else 1 + |Hex(n / 16)|
  {
  }

  lemma HexLength(n: nat)
    requires n <= 0x10FFFF
    ensures |Hex(n)| <= 6
  {
    HexShorter(n);
    HexShorter(n / 16);
    HexShorter(n / 16 / 16);
    HexShorter(n / 16 / 16 / 16);
    HexShorter(n / 16 / 16 / 16 / 16);
    HexShorter(n / 16 / 16 / 16 / 16 / 16);
  }

  lemma {:induction false} HexRunStops(h: Text, rest: Text, limit: nat)
    requires forall i :: 0 <= i < |h| ==> IsHex(h[i])
    requires |h| <= limit && (rest == [] || !IsHex(rest[0]))
    ensures HexRun(h + rest, limit) == |h|
    decreases |h|
  {
    if h == [] {
      assert h + rest == rest;
    } else {
      assert (h + rest)[1..] == h[1..] + rest;
      HexRunStops(h[1..], rest, limit - 1);
    }
  }

  /** The digits are matched greedily, and the space after them is swallowed. */
  lemma UnescapeCode(code: nat, rest: Text)
    requires code <= 0x10FFFF
    ensures Unescape([BACKSLASH] + Hex(code) + [SPACE] + rest) == FromCode(code) + Unescape(rest)
  {
    var h := Hex(code);
    var s := [BACKSLASH] + h + [SPACE] + rest;
    HexIsHex(code);
    HexLength(code);
    ParseOfHex(code);
    assert s[1..] == h + ([SPACE] + rest);
    HexRunStops(h, [SPACE] + rest, 6);
    assert s[1..|h| + 1] == h;
    assert s[|h| + 1] == SPACE && s[|h| + 2..] == rest;
  }

  // ----- Every form of escape that the parser reads

  function UpperHexDigit(d: nat): Unit
    requires d < 16
  {
    if d < 10 then 0x30 + d else 0x41 + d - 10
  }

  /** Hexadecimal digits are the digits, and the letters a to f in either case. */
  lemma DigitValues(d: nat)
    requires d < 16
    ensures IsHex(HexDigit(d)) && HexValue(HexDigit(d)) == d
    ensures IsHex(UpperHexDigit(d)) && HexValue(UpperHexDigit(d)) == d
  {
  }

  lemma HexIsDigit(u: Unit)
    ensures IsHex(u) <==> exists d: nat :: d < 16 && (u == HexDigit(d) || u == UpperHexDigit(d))
  {
    if IsHex(u) {
      var d := HexValue(u);
      assert u == HexDigit(d) || u == UpperHexDigit(d);
    }
  }

  /** The white space that may close an escape: space, tab, line feed, form feed, carriage
      return. */
  const CLOSING: set<Unit> := {0x20, 0x09, 0x0A, 0x0C, 0x0D}

  /** One to six hexadecimal digits, as many as there are, are read as one code point; a single
      white space after them is swallowed. */
  lemma UnescapeDigits(h: Text, close: Text, rest: Text)
    requires 1 <= |h| <= 6 && forall i :: 0 <= i < |h| ==> IsHex(h[i])
    requires close == [] || (|close| == 1 && close[0] in CLOSING)
    requires close == [] && rest != [] ==> rest[0] !in CLOSING && (|h| < 6 ==> !IsHex(rest[0]))
    ensures Unescape([BACKSLASH] + h + close + rest) == FromCode(ParseHex(h)) + Unescape(rest)
  {
    HexRunIs(h, close + rest);
    if close == [] {
      assert [] + rest == rest && [BACKSLASH] + h + [] == [BACKSLASH] + h;
      OpenRun(h, rest);
    } else {
      assert [close[0]] == close;
      ClosedRun(h, close[0], rest);
    }
  }

  lemma OpenRun(h: Text, rest: Text)
    requires 1 <= |h| <= 6 && (forall i :: 0 <= i < |h| ==> IsHex(h[i])) && HexRun(h + rest, 6) == |h|
    requires rest != [] ==> !IsWhitespace(rest[0])
    ensures Unescape([BACKSLASH] + h + rest) == FromCode(ParseHex(h)) + Unescape(rest)
  {
    RunSlices(h, rest);
  }

  lemma RunSlices(h: Text, tail: Text)
    ensures var s := [BACKSLASH] + h + tail;
            s[0] == BACKSLASH && s[1..] == h + tail && s[1..|h| + 1] == h && s[|h| + 1..] == tail
  {
  }

  lemma CloseSlices(h: Text, close: Unit, rest: Text)
    ensures var s := [BACKSLASH] + h + [close] + rest;
            s == [BACKSLASH] + h + ([close] + rest) && s[|h| + 1] == close && s[|h| + 2..] == rest
  {
  }

  lemma ClosedRun(h: Text, close: Unit, rest: Text)
    requires 1 <= |h| <= 6 && (forall i :: 0 <= i < |h| ==> IsHex(h[i])) && HexRun(h + ([close] + rest), 6) == |h|
    requires IsWhitespace(close)
    ensures Unescape([BACKSLASH] + h + [close] + rest) == FromCode(ParseHex(h)) + Unescape(rest)
  {
    CloseSlices(h, close, rest);
    RunSlices(h, [close] + rest);
  }

  lemma HexRunIs(h: Text, after: Text)
    requires 1 <= |h| <= 6 && forall i :: 0 <= i < |h| ==> IsHex(h[i])
    requires |h| < 6 && after != [] ==> !IsHex(after[0])
    ensures HexRun(h + after, 6) == |h|
  {
    if |h| < 6 {
      HexRunStops(h, after, 6);
    } else {
      HexRunFills(h, after);
    }
  }

  lemma {:induction false} HexRunFills(h: Text, after: Text)
    requires forall i :: 0 <= i < |h| ==> IsHex(h[i])
    ensures HexRun(h + after, |h|) == |h|
    decreases |h|
  {
    if h != [] {
      assert (h + after)[1..] == h[1..] + after;
      HexRunFills(h[1..], after);
    }
  }

  /** A backslash before anything else is dropped, but it stays before the two line separators
      and at the end. */
  lemma UnescapeOther(u: Unit, rest: Text)
    requires !IsHex(u)
    ensures Unescape([BACKSLASH, u] + rest) ==
            if u in {0x2028, 0x2029} then [BACKSLASH] + Unescape([u] + rest) else [u] + Unescape(rest)
    ensures Unescape([BACKSLASH]) == [BACKSLASH]
  {
    var s := [BACKSLASH, u] + rest;
    assert s[1..] == [u] + rest && s[1..][0] == u && s[2..] == rest;
    assert [BACKSLASH][1..] == [] && [BACKSLASH] + [] == [BACKSLASH];
  }

  // ----- The round trip

  function Cleaned(u: Unit): Unit {
    if u == NUL then REPLACEMENT else u
  }

  /** The string with U+0000 replaced by U+FFFD. */
  function Clean(s: Text): Text {
    if s == [] then [] else [Cleaned(s[0])] + Clean(s[1..])
  }

  lemma UnescapeUnit(u: Unit, rest: Text)
    ensures Unescape(EscapeUnit(u) + rest) == [Cleaned(u)] + Unescape(rest)
  {
    var e := EscapeUnit(u);
    if u != NUL && IsControl(u) {
      UnescapeCode(u, rest);
    } else if u != NUL && IsSpecial(u) {
      UnescapeSpecial(u, rest);
    } else {
      assert (e + rest)[1..] == rest;
    }
  }

  lemma UnescapeSpecial(u: Unit, rest: Text)
    requires !IsHex(u) && !IsControl(u) && u < 0x7F
    ensures Unescape([BACKSLASH, u] + rest) == [u] + Unescape(rest)
  {
    var s := [BACKSLASH, u] + rest;
    assert s[1..][0] == u && s[2..] == rest;
  }

  lemma {:induction false} UnescapeRest(s: Text)
    ensures Unescape(EscapeRest(s)) == Clean(s)
    decreases |s|
  {
    if s != [] {
      UnescapeUnit(s[0], EscapeRest(s[1..]));
      UnescapeRest(s[1..]);
    }
  }

  lemma UnescapeDigit(u: Unit, rest: Text)
    requires IsDigit(u)
    ensures Unescape(CodePoint(u) + EscapeRest(rest)) == [u] + Clean(rest)
  {
    UnescapeCode(u, EscapeRest(rest));
    UnescapeRest(rest);
  }

  lemma UnescapeLoneHyphen()
    ensures Unescape([BACKSLASH, HYPHEN]) == [HYPHEN]
  {
    UnescapeSpecial(HYPHEN, []);
    assert [BACKSLASH, HYPHEN] + [] == [BACKSLASH, HYPHEN];
  }

  lemma UnescapePlain(u: Unit, tail: Text)
    requires u != BACKSLASH
    ensures Unescape([u] + tail) == [u] + Unescape(tail)
  {
    assert ([u] + tail)[1..] == tail;
  }

  lemma CleanTwo(u: Unit, v: Unit, rest: Text)
    ensures Clean([u, v] + rest) == [Cleaned(u)] + ([Cleaned(v)] + Clean(rest))
  {
    var s := [u, v] + rest;
    assert s[1..] == [v] + rest && s[1..][1..] == rest;
  }

  lemma UnescapeHyphenDigit(u: Unit, rest: Text)
    requires IsDigit(u)
    ensures Unescape([HYPHEN] + CodePoint(u) + EscapeRest(rest)) == Clean([HYPHEN, u] + rest)
  {
    Assoc([HYPHEN], CodePoint(u), EscapeRest(rest));
    UnescapePlain(HYPHEN, CodePoint(u) + EscapeRest(rest));
    UnescapeDigit(u, rest);
    CleanTwo(HYPHEN, u, rest);
  }

  /** What escape leaves as it is, apart from the start: letters, digits, underscore, hyphen and
      everything from U+0080 on; other printable characters get a backslash, control characters
      are written by their code point, and U+0000 is replaced. */
  lemma EscapesOnly(u: Unit)
    ensures EscapeUnit(u) ==
            if u == 0 then [0xFFFD]
            else if u >= 0x80 || 0x30 <= u < 0x3A || 0x41 <= u < 0x5B || 0x61 <= u < 0x7B || u == 0x2D || u == 0x5F then [u]
            else if 0x20 <= u < 0x7F then [0x5C, u]
            else [0x5C] + Hex(u) + [0x20]
  {
  }

  /** Unescaping undoes escaping, for every string, up to the replacement of U+0000. */
  lemma RoundTrip(s: Text)
    ensures Unescape(Escape(s)) == Clean(s)
  {
    if s == [HYPHEN] {
      UnescapeLoneHyphen();
      assert Clean(s[1..]) == [];
    } else if s != [] && IsDigit(s[0]) {
      UnescapeDigit(s[0], s[1..]);
    } else if |s| > 1 && s[0] == HYPHEN && IsDigit(s[1]) {
      UnescapeHyphenDigit(s[1], s[2..]);
      assert s == [HYPHEN, s[1]] + s[2..];
    } else {
      UnescapeRest(s);
    }
  }

  lemma {:induction false} CleanIsIdentity(s: Text)
    requires NUL !in s
    ensures Clean(s) == s
    decreases |s|
  {
    if s != [] {
      CleanIsIdentity(s[1..]);
    }
  }

  /** The round trip is exact if and only if the string has no U+0000. */
  lemma ExactRoundTrip(s: Text)
    ensures Unescape(Escape(s)) == s <==> NUL !in s
  {
    RoundTrip(s);
    if NUL !in s {
      CleanIsIdentity(s);
    } else {
      CleanHasNoNul(s);
    }
  }

  lemma {:induction false} CleanHasNoNul(s: Text)
    ensures NUL !in Clean(s)
    decreases |s|
  {
    if s != [] {
      CleanHasNoNul(s[1..]);
    }
  }

  // ----- Whether the selector parser reads what was escaped as one identifier

  /** `(?:\\.|[\w-]|[^\0-\xa0])*`, on the whole of `s`. */
  predicate IdentifierRest(s: Text)
    decreases |s|
  {
    if s == [] then true
    else if s[0] == BACKSLASH then |s| > 1 && !IsLineTerminator(s[1]) && IdentifierRest(s[2..])
    else (IsWord(s[0]) || s[0] == HYPHEN || s[0] > 0xA0) && IdentifierRest(s[1..])
  }

  predicate IsIdentifier(s: Text) {
    s != [] && IdentifierRest(s)
  }

  /** Units that are escaped otherwise than by their code point, if at all, and that an
      identifier may hold. */
  predicate IsReadable(u: Unit) {
    u == NUL || (!IsControl(u) && !(0x80 <= u <= 0xA0))
  }

  predicate StartsWithDigit(s: Text) {
    s != [] && (IsDigit(s[0]) || (|s| > 1 && s[0] == HYPHEN && IsDigit(s[1])))
  }

  lemma {:induction false} SpaceEnds(h: Text, rest: Text)
    requires forall i :: 0 <= i < |h| ==> IsHex(h[i])
    ensures !IdentifierRest(h + [SPACE] + rest)
    decreases |h|
  {
    if h == [] {
      assert (h + [SPACE] + rest)[0] == SPACE;
    } else {
      assert (h + [SPACE] + rest)[1..] == h[1..] + [SPACE] + rest;
      SpaceEnds(h[1..], rest);
    }
  }

  /** The space that closes a code point is no part of an identifier. */
  lemma CodePointUnread(u: Unit, rest: Text)
    ensures !IdentifierRest(CodePoint(u) + rest)
  {
    var h, s := Hex(u), CodePoint(u) + rest;
    HexIsHex(u);
    assert s[0] == BACKSLASH && s[1] == h[0] && s[2..] == h[1..] + [SPACE] + rest;
    SpaceEnds(h[1..], rest);
  }

  lemma UnitRead(u: Unit, rest: Text)
    ensures IdentifierRest(EscapeUnit(u) + rest) <==> IsReadable(u) && IdentifierRest(rest)
  {
    var s := EscapeUnit(u) + rest;
    if u != NUL && IsControl(u) {
      CodePointUnread(u, rest);
    } else if u != NUL && IsSpecial(u) {
      assert s[0] == BACKSLASH && s[1] == u && s[2..] == rest;
    } else {
      assert s[1..] == rest;
    }
  }

  lemma {:induction false} RestRead(s: Text)
    ensures IdentifierRest(EscapeRest(s)) <==> forall i :: 0 <= i < |s| ==> IsReadable(s[i])
    decreases |s|
  {
    if s != [] {
      UnitRead(s[0], EscapeRest(s[1..]));
      RestRead(s[1..]);
      assert forall i :: 0 < i < |s| ==> s[i] == s[1..][i - 1];
      assert forall i :: 0 <= i < |s[1..]| ==> s[1..][i] == s[i + 1];
    }
  }

  /** What escape makes of a string is one identifier to the parser if and only if the string
      is not empty, starts with no digit nor a hyphen and a digit, and has no control character
      but U+0000 and none from U+0080 to U+00A0. */
  lemma EscapedIsIdentifier(s: Text)
    ensures IsIdentifier(Escape(s)) <==>
            s != [] && !StartsWithDigit(s) && forall i :: 0 <= i < |s| ==> IsReadable(s[i])
  {
    if s == [HYPHEN] {
      assert [BACKSLASH, HYPHEN][2..] == [] && IsReadable(s[0]);
      assert Escape(s) == [BACKSLASH, HYPHEN] && IdentifierRest(Escape(s));
    } else if s != [] && IsDigit(s[0]) {
      CodePointUnread(s[0], EscapeRest(s[1..]));
    } else if StartsWithDigit(s) {
      CodePointUnread(s[1], EscapeRest(s[2..]));
      Assoc([HYPHEN], CodePoint(s[1]), EscapeRest(s[2..]));
      assert Escape(s)[1..] == CodePoint(s[1]) + EscapeRest(s[2..]);
      assert !IdentifierRest(Escape(s));
    } else {
      RestRead(s);
      EscapeNotEmpty(s);
    }
  }

  lemma EscapeNotEmpty(s: Text)
    ensures EscapeRest(s) == [] <==> s == []
  {
  }

  // ----- Code points beyond the basic plane

  /** The UTF-16 encoding of a supplementary code point. */
  function Surrogates(code: nat): Text
    requires 0x10000 <= code <= 0x10FFFF
  {
    [0xD800 + (code - 0x10000) / 0x400, 0xDC00 + (code - 0x10000) % 0x400]
  }

  /** Or of numbers without a common bit is their sum. */
  lemma {:induction false} OrIsSum(a: nat, b: nat, k: nat)
    requires a < Power2(k)
    ensures Or(a, b * Power2(k)) == a + b * Power2(k)
    decreases k
  {
    if k == 0 {
      OrZero(b);
      assert b * Power2(0) == b;
    } else {
      var c := b * Power2(k - 1);
      assert b * Power2(k) == 2 * c;
      OrIsSum(a / 2, b, k - 1);
      if a == 0 && c == 0 {
      } else {
        assert (2 * c) / 2 == c && (2 * c) % 2 == 0;
        assert Or(a, 2 * c) == 2 * Or(a / 2, c) + a % 2;
      }
    }
  }

  function Power2(k: nat): nat {
    if k == 0 then 1 else 2 * Power2(k - 1)
  }

  lemma {:induction false} OrZero(b: nat)
    ensures Or(0, b) == b
    decreases b
  {
    if b > 0 {
      OrZero(b / 2);
    }
  }

  lemma MaskIsSum(bits: nat, k: nat)
    requires bits < 0x400 && k < 64
    ensures Mask(bits, k * 0x400) == bits + k * 0x400
  {
    PowerTen();
    OrIsSum(bits, k, 10);
  }

  lemma PowerTen()
    ensures Power2(10) == 0x400
  {
    assert Power2(3) == 8;
    assert Power2(6) == 64;
    assert Power2(9) == 512;
  }

  /** An escaped supplementary code point becomes its surrogate pair. */
  lemma UnescapeSupplementary(code: nat, rest: Text)
    requires 0x10000 <= code <= 0x10FFFF
    ensures Unescape([BACKSLASH] + Hex(code) + [SPACE] + rest) == Surrogates(code) + Unescape(rest)
  {
    UnescapeCode(code, rest);
    MaskIsSum((code - 0x10000) / 0x400, 54);
    MaskIsSum((code - 0x10000) % 0x400, 55);
    assert FromCode(code) == Surrogates(code);
  }
}
