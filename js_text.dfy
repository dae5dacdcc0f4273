/** The JavaScript string operations the store and the client rely on:
    `toLowerCase` (email comparison), `trim` (profile completeness) and the
    default `Array.prototype.sort` order, which compares strings by their
    UTF-16 code units. */
module JsText {

  // ---------------------------------------------------------------------
  // toLowerCase
  // ---------------------------------------------------------------------

  /** Lower-casing of one character; only the ASCII letters are mapped. */
  function LowerChar(c: char): char
  {
    if 'A' <= c <= 'Z' then (c as int + 32) as char else c
  }

  function Lower(s: string): (r: string)
    ensures |r| == |s|
    ensures forall i :: 0 <= i < |s| ==> r[i] == LowerChar(s[i])
  {
    seq(|s|, i requires 0 <= i < |s| => LowerChar(s[i]))
  }

  /** Lower-casing an already lower-cased string changes nothing. */
  lemma LowerIdempotent(s: string)
    ensures Lower(Lower(s)) == Lower(s)
  {
  }

  // ---------------------------------------------------------------------
  // trim
  // ---------------------------------------------------------------------

  /** The characters `String.prototype.trim` removes: ECMAScript WhiteSpace
      (tab, vertical tab, form feed, space, no-break space, byte order mark and
      every Unicode space separator) and LineTerminator. */
  predicate IsWhitespace(c: char)
  {
    || c == '\t' || c == '\n' || c == '\U{B}' || c == '\U{C}' || c == '\r'
    || c == ' ' || c == '\U{A0}' || c == '\U{1680}'
    || ('\U{2000}' <= c <= '\U{200A}')
    || c == '\U{2028}' || c == '\U{2029}' || c == '\U{202F}' || c == '\U{205F}'
    || c == '\U{3000}' || c == '\U{FEFF}'
  }

  /** `s` with its leading whitespace removed: a suffix of `s` that does not
      start with whitespace, and everything dropped was whitespace. */
  function TrimStart(s: string): (r: string)
    ensures |r| <= |s| && r == s[|s| - |r|..]
    ensures r != [] ==> !IsWhitespace(r[0])
    ensures forall i :: 0 <= i < |s| - |r| ==> IsWhitespace(s[i])
  {
    if s != [] && IsWhitespace(s[0]) then TrimStart(s[1..]) else s
  }

  /** `s` with its trailing whitespace removed: a prefix of `s` that does not
      end with whitespace, and everything dropped was whitespace. */
  function TrimEnd(s: string): (r: string)
    ensures |r| <= |s| && r == s[..|r|]
    ensures r != [] ==> !IsWhitespace(r[|r| - 1])
    ensures forall i :: |r| <= i < |s| ==> IsWhitespace(s[i])
  {
    if s != [] && IsWhitespace(s[|s| - 1]) then TrimEnd(s[..|s| - 1]) else s
  }

  /** `s` with whitespace removed at both ends: a slice of `s` that neither
      starts nor ends with whitespace, and everything dropped on either side
      was whitespace. */
  function Trim(s: string): (r: string)
    ensures r != [] ==> !IsWhitespace(r[0]) && !IsWhitespace(r[|r| - 1])
    ensures exists k :: TrimmedAt(s, r, k)
  {
    TrimSlice(s);
    TrimEnd(TrimStart(s))
  }

  lemma TrimSlice(s: string)
    ensures TrimmedAt(s, TrimEnd(TrimStart(s)), |s| - |TrimStart(s)|)
  {
    var t := TrimStart(s);
    var r := TrimEnd(t);
    var k := |s| - |t|;
    assert t == s[k..];
    assert r == t[..|r|];
    assert forall i :: 0 <= i < |r| ==> r[i] == s[k + i];
    assert r == s[k..k + |r|];
    forall i | k + |r| <= i < |s| ensures IsWhitespace(s[i]) {
      assert s[i] == t[i - k];
    }
    assert 0 <= k <= |s| - |r|;
    assert forall i :: 0 <= i < k ==> IsWhitespace(s[i]);
    assert TrimmedAt(s, r, k);
  }

  /** `r` is the slice of `s` starting at `k`, and the characters of `s`
      before and after it are all whitespace. */
  predicate TrimmedAt(s: string, r: string, k: int)
  {
    && 0 <= k <= |s| - |r| && r == s[k..k + |r|]
    && (forall i :: 0 <= i < k ==> IsWhitespace(s[i]))
    && (forall i :: k + |r| <= i < |s| ==> IsWhitespace(s[i]))
  }

  /** `s.trim()` is empty exactly when every character of `s` is whitespace. */
  lemma TrimEmptyIff(s: string)
    ensures Trim(s) == [] <==> forall i :: 0 <= i < |s| ==> IsWhitespace(s[i])
  {
    var t := TrimStart(s);
    if t != [] {
      assert !IsWhitespace(s[|s| - |t|]);
    }
  }

  // ---------------------------------------------------------------------
  // The default sort order: UTF-16 code units
  // ---------------------------------------------------------------------

  /** The UTF-16 encoding of one character (a Unicode scalar value). */
  function CharUnits(c: char): (r: seq<int>)
    ensures 1 <= |r| <= 2
    ensures |r| == 2 <==> 0xD800 <= r[0] < 0xDC00
  {
    var v := c as int;
    if v < 0x10000 then [v]
    else [0xD800 + (v - 0x10000) / 0x400, 0xDC00 + (v - 0x10000) % 0x400]
  }

  function CodeUnits(s: string): seq<int>
  {
    if s == [] then [] else CharUnits(s[0]) + CodeUnits(s[1..])
  }

  /** Lexicographic order on code-unit sequences; a proper prefix is smaller. */
  predicate LexLess(a: seq<int>, b: seq<int>)
  {
    if a == [] then b != []
    else if b == [] then false
    else if a[0] != b[0] then a[0] < b[0]
    else LexLess(a[1..], b[1..])
  }

  /** JavaScript's `a < b` on strings. */
  predicate StrLess(a: string, b: string)
  {
    LexLess(CodeUnits(a), CodeUnits(b))
  }

  predicate StrLe(a: string, b: string)
  {
    !StrLess(b, a)
  }

  lemma {:induction false} LexLessIrreflexive(a: seq<int>)
    ensures !LexLess(a, a)
  {
    if a != [] {
      LexLessIrreflexive(a[1..]);
    }
  }

  lemma {:induction false} LexLessAsymmetric(a: seq<int>, b: seq<int>)
    ensures !(LexLess(a, b) && LexLess(b, a))
  {
    if a != [] && b != [] && a[0] == b[0] {
      LexLessAsymmetric(a[1..], b[1..]);
    }
  }

  lemma {:induction false} LexLessTotal(a: seq<int>, b: seq<int>)
    ensures a == b || LexLess(a, b) || LexLess(b, a)
  {
    if a != [] && b != [] && a[0] == b[0] {
      LexLessTotal(a[1..], b[1..]);
      if a[1..] == b[1..] {
        assert a == [a[0]] + a[1..] && b == [b[0]] + b[1..];
      }
    }
  }

  /** Two characters with the same UTF-16 encoding are the same character. */
  lemma CharUnitsInjective(c: char, d: char)
    requires CharUnits(c) == CharUnits(d)
    ensures c == d
  {
    var v, w := c as int, d as int;
    if v >= 0x10000 {
      assert (v - 0x10000) / 0x400 == (w - 0x10000) / 0x400;
      assert (v - 0x10000) % 0x400 == (w - 0x10000) % 0x400;
    }
  }

  /** Two strings with the same UTF-16 encoding are the same string. */
  lemma {:induction false} CodeUnitsInjective(s: string, t: string)
    requires CodeUnits(s) == CodeUnits(t)
    ensures s == t
  {
    if s != [] {
      assert t != [];
      var cs, ct := CharUnits(s[0]), CharUnits(t[0]);
      var u := CodeUnits(s);
      assert u[0] == cs[0] == ct[0];
      assert |cs| == |ct|;
      assert cs == u[..|cs|] == ct;
      CharUnitsInjective(s[0], t[0]);
      assert CodeUnits(s[1..]) == u[|cs|..] == CodeUnits(t[1..]);
      CodeUnitsInjective(s[1..], t[1..]);
      assert s == [s[0]] + s[1..] && t == [t[0]] + t[1..];
    }
  }

  /** JavaScript string comparison is a strict total order. */
  lemma StrLessTrichotomy(a: string, b: string)
    ensures a == b || StrLess(a, b) || StrLess(b, a)
    ensures !(StrLess(a, b) && StrLess(b, a))
    ensures !StrLess(a, a)
  {
    LexLessTotal(CodeUnits(a), CodeUnits(b));
    LexLessAsymmetric(CodeUnits(a), CodeUnits(b));
    LexLessIrreflexive(CodeUnits(a));
    if CodeUnits(a) == CodeUnits(b) {
      CodeUnitsInjective(a, b);
    }
  }

  /** `[a, b].sort()`: the two strings in ascending code-unit order. */
  function SortPair(a: string, b: string): (r: (string, string))
    ensures StrLe(r.0, r.1)
    ensures (r.0 == a && r.1 == b) || (r.0 == b && r.1 == a)
  {
    StrLessTrichotomy(a, b);
    if StrLess(b, a) then (b, a) else (a, b)
  }

  /** The canonical pair does not depend on argument order. */
  lemma SortPairSymmetric(a: string, b: string)
    ensures SortPair(a, b) == SortPair(b, a)
  {
    StrLessTrichotomy(a, b);
  }

  /** A pair already in ascending order is the canonical form of its two ids,
      so two ascending pairs over the same two ids are equal. */
  lemma AscendingPairUnique(a: string, b: string, c: string, d: string)
    requires StrLe(a, b) && StrLe(c, d)
    requires (a == c && b == d) || (a == d && b == c)
    ensures a == c && b == d
  {
    StrLessTrichotomy(a, b);
  }
}
