/** The JavaScript string built-ins the board relies on: `trim`,
    `toLowerCase`, `split` and `Number` applied to a decimal digit string. */
module JsString {

  import opened Wrappers

  // ---------------------------------------------------------------------
  // String.prototype.trim
  // ---------------------------------------------------------------------

  /** The code points `trim` removes: the ECMAScript WhiteSpace and
      LineTerminator characters (TAB, LF, VT, FF, CR, SPACE, NBSP, the
      Unicode space separators, LS, PS and the byte order mark). */
  predicate IsWhiteSpace(c: char) {
    || c == '\t' || c == '\n' || c == '\U{B}' || c == '\U{C}' || c == '\r' || c == ' '
    || c == '\U{A0}' || c == '\U{1680}' || ('\U{2000}' <= c <= '\U{200A}')
    || c == '\U{2028}' || c == '\U{2029}' || c == '\U{202F}' || c == '\U{205F}'
    || c == '\U{3000}' || c == '\U{FEFF}'
  }

  predicate AllWhiteSpace(s: string) {
    forall i :: 0 <= i < |s| ==> IsWhiteSpace(s[i])
  }

  /** `s` without its leading white space. */
  function TrimStart(s: string): (r: string)
    ensures |r| <= |s| && r == s[|s| - |r|..]
    ensures r == [] || !IsWhiteSpace(r[0])
    ensures AllWhiteSpace(s[..|s| - |r|])
  {
    if s != [] && IsWhiteSpace(s[0]) then TrimStart(s[1..]) else s
  }

  /** `s` without its trailing white space. */
  function TrimEnd(s: string): (r: string)
    ensures |r| <= |s| && r == s[..|r|]
    ensures r == [] || !IsWhiteSpace(r[|r| - 1])
    ensures AllWhiteSpace(s[|r|..])
  {
    if s != [] && IsWhiteSpace(s[|s| - 1]) then TrimEnd(s[..|s| - 1]) else s
  }

  /** `s.trim()`: a string that neither starts nor ends with white space
      (`TrimIsPaddedSlice` shows it is `s` without its padding). */
  function Trim(s: string): (r: string)
    ensures |r| <= |s|
    ensures r == [] || (!IsWhiteSpace(r[0]) && !IsWhiteSpace(r[|r| - 1]))
  {
    var t := TrimStart(s);
    var r := TrimEnd(t);
    assert r != [] ==> r[0] == t[0];
    r
  }

  /** `s.trim()` is a slice of `s`, from `k` on, everything cut off on
      either side being white space. */
  lemma TrimIsPaddedSlice(s: string) returns (k: nat, r: string)
    ensures r == Trim(s)
    ensures k + |r| <= |s| && r == s[k..k + |r|] && AllWhiteSpace(s[..k]) && AllWhiteSpace(s[k + |r|..])
  {
    var t := TrimStart(s);
    r := TrimEnd(t);
    k := |s| - |t|;
    TrimSlices(s, t, r);
  }

  /** Cutting a white-space prefix and then a white-space suffix cuts a
      white-space padding on both sides. */
  lemma TrimSlices(s: string, t: string, r: string)
    requires |t| <= |s| && t == s[|s| - |t|..] && AllWhiteSpace(s[..|s| - |t|])
    requires |r| <= |t| && r == t[..|r|] && AllWhiteSpace(t[|r|..])
    ensures var k := |s| - |t|;
            k + |r| <= |s| && r == s[k..k + |r|] && AllWhiteSpace(s[..k]) && AllWhiteSpace(s[k + |r|..])
  {
    var k := |s| - |t|;
    assert r == s[k..k + |r|];
    assert s[k + |r|..] == t[|r|..];
  }

  /** The trim is empty exactly when the string is all white space. */
  lemma TrimEmptyIffWhiteSpace(s: string)
    ensures Trim(s) == [] <==> AllWhiteSpace(s)
  {
    var k, r := TrimIsPaddedSlice(s);
    if r == [] {
      assert s == s[..k] + s[k + |r|..];
      AllWhiteSpaceConcat(s[..k], s[k + |r|..]);
    } else {
      assert r[0] == s[k];
    }
  }

  lemma AllWhiteSpaceConcat(a: string, b: string)
    requires AllWhiteSpace(a) && AllWhiteSpace(b)
    ensures AllWhiteSpace(a + b)
  {
    assert forall i :: 0 <= i < |a + b| ==> (a + b)[i] == if i < |a| then a[i] else b[i - |a|];
  }

  lemma {:induction false} TrimStartOfPadded(p: string, s: string)
    requires AllWhiteSpace(p)
    ensures TrimStart(p + s) == TrimStart(s)
  {
    if p != [] {
      assert (p + s)[0] == p[0] && IsWhiteSpace(p[0]);
      assert (p + s)[1..] == p[1..] + s;
      TrimStartOfPadded(p[1..], s);
    } else {
      assert p + s == s;
    }
  }

  lemma {:induction false} TrimEndOfPadded(s: string, q: string)
    requires AllWhiteSpace(q)
    ensures TrimEnd(s + q) == TrimEnd(s)
  {
    if q != [] {
      assert (s + q)[|s + q| - 1] == q[|q| - 1] && IsWhiteSpace(q[|q| - 1]);
      assert (s + q)[..|s + q| - 1] == s + q[..|q| - 1];
      TrimEndOfPadded(s, q[..|q| - 1]);
    } else {
      assert s + q == s;
    }
  }

  /** Padding a string with white space on either side does not change what
      `trim` returns. */
  lemma TrimIgnoresPadding(p: string, s: string, q: string)
    requires AllWhiteSpace(p) && AllWhiteSpace(q)
    ensures Trim(p + s + q) == Trim(s)
  {
    var t := TrimStart(s);
    var k := |s| - |t|;
    assert p + s + q == (p + s[..k]) + (t + q) by {
      assert s == s[..k] + t;
    }
    AllWhiteSpaceConcat(p, s[..k]);
    TrimStartOfPadded(p + s[..k], t + q);
    TrimStartEmptyOrKept(t, q);
    if t != [] {
      TrimEndOfPadded(t, q);
    }
  }

  lemma TrimStartEmptyOrKept(t: string, q: string)
    requires t == [] || !IsWhiteSpace(t[0])
    requires AllWhiteSpace(q)
    ensures TrimStart(t + q) == if t == [] then [] else t + q
  {
    if t != [] {
      assert (t + q)[0] == t[0];
    } else {
      assert t + q == q;
    }
  }

  /** Trimming twice is trimming once. */
  lemma TrimIdempotent(s: string)
    ensures Trim(Trim(s)) == Trim(s)
  {
    var r := Trim(s);
    assert TrimStart(r) == r;
    assert TrimEnd(r) == r;
  }

  // ---------------------------------------------------------------------
  // String.prototype.toLowerCase
  // ---------------------------------------------------------------------

  /** Lower case of one character: the Basic Latin and Latin-1 capitals
      (A-Z and U+00C0-U+00DE except the multiplication sign) move down by
      0x20; every other character is kept. */
  function LowerChar(c: char): char {
    if 'A' <= c <= 'Z' || ('\U{C0}' <= c <= '\U{DE}' && c != '\U{D7}') then (c as int + 32) as char else c
  }

  /** `s.toLowerCase()`, character by character. */
  function ToLower(s: string): (r: string)
    ensures |r| == |s|
    ensures forall i :: 0 <= i < |s| ==> r[i] == LowerChar(s[i])
  {
    if s == [] then [] else [LowerChar(s[0])] + ToLower(s[1..])
  }

  /** Lower-casing a lower-cased string changes nothing. */
  lemma ToLowerIdempotent(s: string)
    ensures ToLower(ToLower(s)) == ToLower(s)
  {
  }

  lemma ToLowerConcat(a: string, b: string)
    ensures ToLower(a + b) == ToLower(a) + ToLower(b)
  {
    assert forall i :: 0 <= i < |a + b| ==> (a + b)[i] == if i < |a| then a[i] else b[i - |a|];
  }

  /** A string that neither starts nor ends with white space is its own trim. */
  lemma TrimUnpadded(t: string)
    requires t == [] || (!IsWhiteSpace(t[0]) && !IsWhiteSpace(t[|t| - 1]))
    ensures Trim(t) == t
  {
    assert TrimStart(t) == t;
  }

  lemma LowerAllWhiteSpace(p: string)
    requires AllWhiteSpace(p)
    ensures AllWhiteSpace(ToLower(p))
  {
    forall i | 0 <= i < |p| ensures IsWhiteSpace(ToLower(p)[i]) {
      LowerCharKeepsWhiteSpace(p[i]);
    }
  }

  lemma LowerUnpadded(r: string)
    requires r == [] || (!IsWhiteSpace(r[0]) && !IsWhiteSpace(r[|r| - 1]))
    ensures Trim(ToLower(r)) == ToLower(r)
  {
    if r != [] {
      LowerCharKeepsWhiteSpace(r[0]);
      LowerCharKeepsWhiteSpace(r[|r| - 1]);
    }
    TrimUnpadded(ToLower(r));
  }

  /** Trimming and lower-casing commute. */
  lemma TrimOfLowered(s: string)
    ensures Trim(ToLower(s)) == ToLower(Trim(s))
  {
    var k, r := TrimIsPaddedSlice(s);
    TrimOfLoweredSlice(s, k, r);
  }

  lemma TrimOfLoweredSlice(s: string, k: int, r: string)
    requires 0 <= k && k + |r| <= |s| && r == s[k..k + |r|]
    requires AllWhiteSpace(s[..k]) && AllWhiteSpace(s[k + |r|..])
    requires r == [] || (!IsWhiteSpace(r[0]) && !IsWhiteSpace(r[|r| - 1]))
    ensures Trim(ToLower(s)) == ToLower(r)
  {
    ThreeSlices(s, k, k + |r|);
    TrimOfLoweredParts(s[..k], r, s[k + |r|..]);
  }

  lemma ThreeSlices<T>(s: seq<T>, i: int, j: int)
    requires 0 <= i <= j <= |s|
    ensures s == s[..i] + s[i..j] + s[j..]
  {
  }

  /** The lower-cased padding of a lower-cased string is cut off again. */
  lemma TrimOfLoweredParts(p: string, r: string, q: string)
    requires AllWhiteSpace(p) && AllWhiteSpace(q)
    requires r == [] || (!IsWhiteSpace(r[0]) && !IsWhiteSpace(r[|r| - 1]))
    ensures Trim(ToLower(p + r + q)) == ToLower(r)
  {
    LowerOfParts(p + r + q, p, r, q);
    LowerAllWhiteSpace(p);
    LowerAllWhiteSpace(q);
    TrimIgnoresPadding(ToLower(p), ToLower(r), ToLower(q));
    LowerUnpadded(r);
  }

  lemma LowerOfParts(s: string, p: string, r: string, q: string)
    requires s == p + r + q
    ensures ToLower(s) == ToLower(p) + ToLower(r) + ToLower(q)
  {
    ToLowerConcat(p, r);
    ToLowerConcat(p + r, q);
  }

  /** Lower-casing neither creates nor removes white space. */
  lemma LowerCharKeepsWhiteSpace(c: char)
    ensures IsWhiteSpace(LowerChar(c)) <==> IsWhiteSpace(c)
  {
  }

  // ---------------------------------------------------------------------
  // String.prototype.split with a one-character separator
  // ---------------------------------------------------------------------

  /** `s.split(sep)`: the maximal pieces between the separators, at least one
      (the empty string splits into one empty piece). */
  function Split(s: string, sep: char): (parts: seq<string>)
    ensures |parts| >= 1
    ensures forall i :: 0 <= i < |parts| ==> sep !in parts[i]
  {
    if s == [] then [[]]
    else
      var rest := Split(s[1..], sep);
      if s[0] == sep then [[]] + rest else [[s[0]] + rest[0]] + rest[1..]
  }

  /** `parts.join(sep)`, the inverse of `Split`. */
  function Join(parts: seq<string>, sep: char): string {
    if parts == [] then []
    else if |parts| == 1 then parts[0]
    else parts[0] + [sep] + Join(parts[1..], sep)
  }

  /** Joining the pieces of a split gives back the string. */
  lemma {:induction false} JoinSplit(s: string, sep: char)
    ensures Join(Split(s, sep), sep) == s
  {
    if s != [] {
      var rest := Split(s[1..], sep);
      JoinSplit(s[1..], sep);
      if s[0] == sep {
        assert ([[]] + rest)[1..] == rest;
      } else if |rest| == 1 {
        assert s == [s[0]] + s[1..];
      } else {
        var parts := [[s[0]] + rest[0]] + rest[1..];
        assert parts[1..] == rest[1..];
        assert Join(rest, sep) == rest[0] + [sep] + Join(rest[1..], sep);
        assert s == [s[0]] + s[1..];
      }
    }
  }

  lemma {:induction false} SplitWithoutSeparator(s: string, sep: char)
    requires sep !in s
    ensures Split(s, sep) == [s]
  {
    if s != [] {
      SplitWithoutSeparator(s[1..], sep);
      assert s == [s[0]] + s[1..];
    }
  }

  /** A separator after a separator-free piece `a` splits off exactly `a`. */
  lemma {:induction false} SplitAfterPiece(a: string, sep: char, t: string)
    requires sep !in a
    ensures Split(a + [sep] + t, sep) == [a] + Split(t, sep)
  {
    if a == [] {
      assert a + [sep] + t == [sep] + t;
      assert ([sep] + t)[1..] == t;
    } else {
      assert (a + [sep] + t)[1..] == a[1..] + [sep] + t;
      SplitAfterPiece(a[1..], sep, t);
      assert a == [a[0]] + a[1..];
    }
  }

  /** Splitting a join of separator-free pieces gives back the pieces. */
  lemma {:induction false} SplitJoin(parts: seq<string>, sep: char)
    requires |parts| >= 1
    requires forall i :: 0 <= i < |parts| ==> sep !in parts[i]
    ensures Split(Join(parts, sep), sep) == parts
  {
    if |parts| == 1 {
      SplitWithoutSeparator(parts[0], sep);
    } else {
      SplitJoin(parts[1..], sep);
      SplitAfterPiece(parts[0], sep, Join(parts[1..], sep));
      assert [parts[0]] + parts[1..] == parts;
    }
  }

  // ---------------------------------------------------------------------
  // Number() on a decimal digit string
  // ---------------------------------------------------------------------

  predicate IsDigit(c: char) {
    '0' <= c <= '9'
  }

  predicate AllDigits(s: string) {
    forall i :: 0 <= i < |s| ==> IsDigit(s[i])
  }

  /** The decimal value of a digit string (0 for the empty string). */
  function DigitsValue(s: string): nat
    requires AllDigits(s)
  {
    if s == [] then 0 else DigitsValue(s[..|s| - 1]) * 10 + (s[|s| - 1] as int - '0' as int)
  }

  /** The digit character for `d`. */
  function DigitChar(d: int): (c: char)
    requires 0 <= d <= 9
    ensures IsDigit(c) && c as int - '0' as int == d
  {
    ('0' as int + d) as char
  }

  /** `Number(s)`, with NaN as `None`: a digit string gives its value, and
      the empty string gives 0 as in JavaScript. */
  function ToNumber(s: string): (n: Option<int>)
    ensures n.Some? <==> AllDigits(s)
    ensures s == [] ==> n == Some(0)
  {
    if AllDigits(s) then Some(DigitsValue(s)) else None
  }

  /** Two digits read back as the number they spell. */
  lemma TwoDigitsValue(a: char, b: char)
    requires IsDigit(a) && IsDigit(b)
    ensures DigitsValue([a, b]) == (a as int - '0' as int) * 10 + (b as int - '0' as int)
  {
    assert [a, b][..1] == [a];
    assert [a][..0] == [];
    assert DigitsValue([a]) == a as int - '0' as int;
  }
}
