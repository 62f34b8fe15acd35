/**
 * The JavaScript string operations the scraper relies on: `trim`, the
 * regular-expression class `\s` and `replace(/\s+/g, ' ')`, the token count
 * of `split(/\s+/)`, `toLowerCase`, `startsWith`, `endsWith`, `includes`,
 * `split` on one character, and the decimal rendering (`String(n)`) and
 * parsing (`Number(s)`) of non-negative integers.
 *
 * A JavaScript string is a sequence of UTF-16 code units; here a string is
 * a sequence of Unicode scalar values (Dafny's `string`).
 */
module Text {

  // ---------------------------------------------------------------------
  // Whitespace, trim and whitespace normalisation
  // ---------------------------------------------------------------------

  /** ECMAScript WhiteSpace and LineTerminator code points: exactly what
      `String.prototype.trim` strips and what `\s` matches. */
  predicate IsSpace(c: char) {
    c as int in SpaceCodes
  }

  const SpaceCodes: set<int> := {
    0x09, 0x0A, 0x0B, 0x0C, 0x0D, 0x20, 0xA0, 0x1680,
    0x2000, 0x2001, 0x2002, 0x2003, 0x2004, 0x2005, 0x2006, 0x2007, 0x2008, 0x2009, 0x200A,
    0x2028, 0x2029, 0x202F, 0x205F, 0x3000, 0xFEFF}

  predicate AllSpace(s: string) {
    forall k :: 0 <= k < |s| ==> IsSpace(s[k])
  }

  /** No whitespace at either end. */
  predicate IsTrimmed(s: string) {
    s != [] ==> !IsSpace(s[0]) && !IsSpace(s[|s| - 1])
  }

  /** Whitespace occurs only as single ' ' characters, never at either end. */
  predicate IsNormalized(s: string) {
    && IsTrimmed(s)
    && (forall k :: 0 <= k < |s| && IsSpace(s[k]) ==> s[k] == ' ')
    && (forall k :: 0 <= k < |s| - 1 && s[k] == ' ' ==> s[k + 1] != ' ')
  }

  /** Drops the leading whitespace of `s`. */
  function TrimStart(s: string): (r: string)
    ensures |r| <= |s| && r == s[|s| - |r|..]
    ensures AllSpace(s[..|s| - |r|])
    ensures r != [] ==> !IsSpace(r[0])
    ensures r == [] <==> AllSpace(s)
    ensures s != [] && !IsSpace(s[0]) ==> r == s
    decreases |s|
  {
    if s != [] && IsSpace(s[0]) then
      var r := TrimStart(s[1..]);
      TrimStartStep(s, r);
      r
    else
      s
  }

  /** One step of `TrimStart`: dropping a leading whitespace character. */
  lemma TrimStartStep(s: string, r: string)
    requires s != [] && IsSpace(s[0])
    requires |r| <= |s| - 1 && r == s[1..][|s| - 1 - |r|..]
    requires AllSpace(s[1..][..|s| - 1 - |r|])
    requires r == [] <==> AllSpace(s[1..])
    ensures r == s[|s| - |r|..]
    ensures AllSpace(s[..|s| - |r|])
    ensures r == [] <==> AllSpace(s)
  {
    assert s[..|s| - |r|] == [s[0]] + s[1..][..|s| - 1 - |r|];
    assert s == [s[0]] + s[1..];
  }

  /** Drops the trailing whitespace of `s`. */
  function TrimEnd(s: string): (r: string)
    ensures |r| <= |s| && r == s[..|r|]
    ensures AllSpace(s[|r|..])
    ensures r != [] ==> !IsSpace(r[|r| - 1])
    ensures r == [] <==> AllSpace(s)
    ensures s != [] && !IsSpace(s[|s| - 1]) ==> r == s
    decreases |s|
  {
    if s != [] && IsSpace(s[|s| - 1]) then
      var r := TrimEnd(s[..|s| - 1]);
      assert s[|r|..] == s[..|s| - 1][|r|..] + [s[|s| - 1]];
      assert s == s[..|s| - 1] + [s[|s| - 1]];
      r
    else
      s
  }

  /** `r` is `s` with only whitespace before position `i` and after
      `r`. */
  predicate CutAt(s: string, r: string, i: int) {
    0 <= i && i + |r| <= |s| && r == s[i..i + |r|] && AllSpace(s[..i]) && AllSpace(s[i + |r|..])
  }

  /** `String.prototype.trim`. */
  function Trim(s: string): (r: string)
    ensures |r| <= |s|
    ensures IsTrimmed(r)
    ensures r == [] <==> AllSpace(s)
    ensures IsTrimmed(s) ==> r == s
  {
    var t := TrimStart(s);
    var r := TrimEnd(t);
    assert r != [] ==> r[0] == t[0];
    assert t != [] ==> !AllSpace(t);
    r
  }

  /** What `trim` returns is a slice of its input with only whitespace
      around it. */
  lemma TrimIsSlice(s: string)
    ensures exists i :: CutAt(s, Trim(s), i)
  {
    var t := TrimStart(s);
    var r := TrimEnd(t);
    assert Trim(s) == r;
    TrimCut(s, t, r);
    assert CutAt(s, Trim(s), |s| - |t|);
  }

  /** Dropping whitespace from the front and then from the back leaves a
      slice of the original with only whitespace around it. */
  lemma TrimCut(s: string, t: string, r: string)
    requires |t| <= |s| && t == s[|s| - |t|..] && AllSpace(s[..|s| - |t|])
    requires |r| <= |t| && r == t[..|r|] && AllSpace(t[|r|..])
    ensures CutAt(s, r, |s| - |t|)
  {
    assert s[|s| - |t| + |r|..] == t[|r|..];
  }

  /** `s.replace(/\s+/g, ' ')`: every maximal run of whitespace becomes a
      single space; every other character is kept, in order. */
  function CollapseSpaces(s: string): (r: string)
    ensures |r| <= |s|
    ensures (r == []) == (s == [])
    decreases |s|
  {
    if s == [] then []
    else if IsSpace(s[0]) then [' '] + CollapseSpaces(TrimStart(s[1..]))
    else [s[0]] + CollapseSpaces(s[1..])
  }

  /** Collapsing keeps the ends: the result starts (ends) with whitespace
      exactly when the input does. */
  lemma {:induction false} CollapsedEnds(s: string)
    requires s != []
    ensures IsSpace(CollapseSpaces(s)[0]) <==> IsSpace(s[0])
    ensures IsSpace(CollapseSpaces(s)[|CollapseSpaces(s)| - 1]) <==> IsSpace(s[|s| - 1])
    decreases |s|
  {
    var r := CollapseSpaces(s);
    if IsSpace(s[0]) {
      var t := TrimStart(s[1..]);
      assert IsSpace(' ');
      if t == [] {
        if |s| > 1 { assert s[1..][..|s| - 1][|s| - 2] == s[|s| - 1]; }
      } else {
        assert t[|t| - 1] == s[|s| - 1];
        CollapsedEnds(t);
      }
    } else if |s| > 1 {
      CollapsedEnds(s[1..]);
    }
  }

  /** After collapsing, every whitespace character is a `' '`. */
  lemma {:induction false} CollapsedBlanks(s: string)
    ensures forall k :: 0 <= k < |CollapseSpaces(s)| && IsSpace(CollapseSpaces(s)[k]) ==>
              CollapseSpaces(s)[k] == ' '
    decreases |s|
  {
    if s != [] {
      if IsSpace(s[0]) {
        CollapsedBlanks(TrimStart(s[1..]));
      } else {
        CollapsedBlanks(s[1..]);
      }
    }
  }

  /** After collapsing, no two spaces are adjacent. */
  lemma {:induction false} CollapsedSingleSpaces(s: string)
    ensures forall k :: 0 <= k < |CollapseSpaces(s)| - 1 && CollapseSpaces(s)[k] == ' ' ==>
              CollapseSpaces(s)[k + 1] != ' '
    decreases |s|
  {
    if s != [] {
      if IsSpace(s[0]) {
        var t := TrimStart(s[1..]);
        CollapsedSingleSpaces(t);
        if t != [] {
          CollapsedEnds(t);
          assert IsSpace(' ');
        }
      } else {
        CollapsedSingleSpaces(s[1..]);
        if |s| > 1 {
          CollapsedEnds(s[1..]);
        }
      }
    }
  }

  /** What the scraper does to a paragraph's text: trim, then collapse the
      inner whitespace runs. */
  lemma TrimThenCollapseIsNormalized(s: string)
    ensures IsNormalized(CollapseSpaces(Trim(s)))
  {
    CollapseTrimmedIsNormalized(Trim(s));
  }

  /** Collapsing a trimmed string normalises it. */
  lemma CollapseTrimmedIsNormalized(t: string)
    requires IsTrimmed(t)
    ensures IsNormalized(CollapseSpaces(t))
  {
    CollapsedBlanks(t);
    CollapsedSingleSpaces(t);
    if t != [] {
      CollapsedEnds(t);
    }
  }

  // ---------------------------------------------------------------------
  // Word counting: split(/\s+/).length
  // ---------------------------------------------------------------------

  /** True when position `k` starts a maximal run of whitespace. */
  predicate StartsSpaceRun(s: string, k: int)
    requires 0 <= k < |s|
  {
    IsSpace(s[k]) && (k == 0 || !IsSpace(s[k - 1]))
  }

  /** True when position `k` starts a maximal run of non-whitespace. */
  predicate StartsWordRun(s: string, k: int)
    requires 0 <= k < |s|
  {
    !IsSpace(s[k]) && (k == 0 || IsSpace(s[k - 1]))
  }

  /** Number of maximal runs of whitespace in `s`. */
  function SpaceRuns(s: string): nat
    decreases |s|
  {
    if s == [] then 0
    else SpaceRuns(s[..|s| - 1]) + (if StartsSpaceRun(s, |s| - 1) then 1 else 0)
  }

  /** Number of maximal runs of non-whitespace in `s`: its words. */
  function WordRuns(s: string): nat
    decreases |s|
  {
    if s == [] then 0
    else WordRuns(s[..|s| - 1]) + (if StartsWordRun(s, |s| - 1) then 1 else 0)
  }

  /** `s.split(/\s+/).length`: every whitespace run separates two pieces,
      so the count is one more than the number of runs (`''` gives one
      empty piece). */
  function SplitOnSpacesCount(s: string): (n: nat)
    ensures n >= 1
  {
    SpaceRuns(s) + 1
  }

  lemma {:induction false} RunsAlternate(s: string)
    requires s != [] && !IsSpace(s[0])
    ensures WordRuns(s) == SpaceRuns(s) + (if IsSpace(s[|s| - 1]) then 0 else 1)
    decreases |s|
  {
    if |s| > 1 {
      var p := s[..|s| - 1];
      assert p[0] == s[0];
      RunsAlternate(p);
      assert p[|p| - 1] == s[|s| - 2];
    }
  }

  /** On a trimmed non-empty string, the pieces of `split(/\s+/)` are
      exactly its words. */
  lemma TokensOfTrimmed(s: string)
    requires s != [] && IsTrimmed(s)
    ensures SplitOnSpacesCount(s) == WordRuns(s)
  {
    RunsAlternate(s);
  }

  // ---------------------------------------------------------------------
  // Case, prefixes, suffixes, substrings
  // ---------------------------------------------------------------------

  function LowerChar(c: char): char {
    if 'A' <= c <= 'Z' then (c as int + 32) as char else c
  }

  /** `toLowerCase` on the ASCII letters; every other character is kept. */
  function ToLower(s: string): (r: string)
    ensures |r| == |s|
    ensures forall k :: 0 <= k < |s| ==> r[k] == LowerChar(s[k])
  {
    if s == [] then [] else [LowerChar(s[0])] + ToLower(s[1..])
  }

  lemma ToLowerAppend(p: string, q: string)
    ensures ToLower(p + q) == ToLower(p) + ToLower(q)
  {
    var l, r := ToLower(p + q), ToLower(p) + ToLower(q);
    forall k | 0 <= k < |l| ensures l[k] == r[k] {
      if k < |p| {
        assert (p + q)[k] == p[k];
      } else {
        assert (p + q)[k] == q[k - |p|];
      }
    }
  }

  predicate StartsWith(s: string, prefix: string) {
    |prefix| <= |s| && s[..|prefix|] == prefix
  }

  predicate EndsWith(s: string, suffix: string) {
    |suffix| <= |s| && s[|s| - |suffix|..] == suffix
  }

  predicate OccursAt(s: string, sub: string, i: nat) {
    i + |sub| <= |s| && s[i..i + |sub|] == sub
  }

  /** `s.includes(sub)`. */
  predicate Contains(s: string, sub: string) {
    exists i: nat :: i <= |s| && OccursAt(s, sub, i)
  }

  lemma ContainsAtStart(s: string, sub: string)
    requires StartsWith(s, sub)
    ensures Contains(s, sub)
  {
    assert OccursAt(s, sub, 0);
  }

  /** A substring made of characters of which one never occurs in `s` is not
      in `s`. */
  lemma NotContainsMissingChar(s: string, sub: string, c: char)
    requires c in sub && c !in s
    ensures !Contains(s, sub)
  {
    var j :| 0 <= j < |sub| && sub[j] == c;
    forall i: nat | i <= |s| ensures !OccursAt(s, sub, i) {
      if i + |sub| <= |s| {
        assert s[i..i + |sub|][j] == s[i + j];
      }
    }
  }

  /** When the first character of `sub` never occurs in `p`, an occurrence of
      `sub` in `p + q` lies inside `q`. */
  lemma ContainsPastPrefix(p: string, q: string, sub: string)
    requires sub != [] && sub[0] !in p
    requires Contains(p + q, sub)
    ensures Contains(q, sub)
  {
    var i: nat :| i <= |p + q| && OccursAt(p + q, sub, i);
    assert (p + q)[i..i + |sub|][0] == (p + q)[i];
    assert i >= |p|;
    assert (p + q)[i..i + |sub|] == q[i - |p|..i - |p| + |sub|];
    assert OccursAt(q, sub, i - |p|);
  }

  lemma ContainsSameLength(s: string, sub: string)
    requires |s| == |sub|
    ensures Contains(s, sub) <==> s == sub
  {
    if s == sub { assert OccursAt(s, sub, 0); }
  }

  /** Lower-casing keeps every occurrence, lower-cased. */
  lemma ContainsToLower(s: string, sub: string)
    requires Contains(s, sub)
    ensures Contains(ToLower(s), ToLower(sub))
  {
    var i: nat :| i <= |s| && OccursAt(s, sub, i);
    var ls, lsub := ToLower(s), ToLower(sub);
    assert ls[i..i + |sub|] == lsub by {
      forall k | 0 <= k < |sub| ensures ls[i..i + |sub|][k] == lsub[k] {
        assert s[i..i + |sub|][k] == sub[k];
      }
    }
    assert OccursAt(ls, lsub, i);
  }

  // ---------------------------------------------------------------------
  // Decimal digits: String(n) and Number(s)
  // ---------------------------------------------------------------------

  predicate IsDigit(c: char) {
    '0' <= c <= '9'
  }

  predicate AllDigits(s: string) {
    forall k :: 0 <= k < |s| ==> IsDigit(s[k])
  }

  function DigitChar(d: nat): (c: char)
    requires d < 10
    ensures IsDigit(c) && c as int - '0' as int == d
  {
    ('0' as int + d) as char
  }

  /** The decimal rendering of `n`, as `String(n)` or a template literal
      gives it. */
  function Decimal(n: nat): (r: string)
    ensures r != [] && AllDigits(r)
    ensures n < 10 <==> |r| <= 1
    ensures n < 100 <==> |r| <= 2
    ensures n < 1000 <==> |r| <= 3
  {
    if n < 10 then [DigitChar(n)] else Decimal(n / 10) + [DigitChar(n % 10)]
  }

  /** `Number(s)` on a string of decimal digits. */
  function DigitsValue(s: string): nat
    requires AllDigits(s)
  {
    if s == [] then 0
    else DigitsValue(s[..|s| - 1]) * 10 + (s[|s| - 1] as int - '0' as int)
  }

  lemma {:induction false} DecimalRoundTrip(n: nat)
    ensures DigitsValue(Decimal(n)) == n
  {
    if n >= 10 {
      var d := Decimal(n);
      assert d[..|d| - 1] == Decimal(n / 10);
      DecimalRoundTrip(n / 10);
    }
  }

  lemma DecimalInjective(m: nat, n: nat)
    requires Decimal(m) == Decimal(n)
    ensures m == n
  {
    DecimalRoundTrip(m);
    DecimalRoundTrip(n);
  }

  // ---------------------------------------------------------------------
  // split on one character, and its inverse
  // ---------------------------------------------------------------------

  /** `s.split(sep)` for a one-character separator: the pieces between the
      occurrences of `sep`, so one more piece than there are separators. */
  function Split(s: string, sep: char): (parts: seq<string>)
    ensures |parts| >= 1
    ensures forall i :: 0 <= i < |parts| ==> sep !in parts[i]
    decreases |s|
  {
    if s == [] then [""]
    else
      var rest := Split(s[1..], sep);
      if s[0] == sep then [""] + rest else [[s[0]] + rest[0]] + rest[1..]
  }

  /** `parts.join(sep)`. */
  function Join(parts: seq<string>, sep: char): string
    requires |parts| >= 1
  {
    if |parts| == 1 then parts[0] else parts[0] + [sep] + Join(parts[1..], sep)
  }

  /** Joining the pieces of a split gives back the string. */
  lemma {:induction false} JoinSplit(s: string, sep: char)
    ensures Join(Split(s, sep), sep) == s
    decreases |s|
  {
    if s != [] {
      JoinSplit(s[1..], sep);
      var rest := Split(s[1..], sep);
      if s[0] != sep && |rest| > 1 {
        assert Join(rest, sep) == rest[0] + [sep] + Join(rest[1..], sep);
        assert rest[1..] == ([[s[0]] + rest[0]] + rest[1..])[1..];
      }
    }
  }

  /** Splitting a join of separator-free pieces gives back the pieces. */
  lemma {:induction false} SplitJoin(parts: seq<string>, sep: char)
    requires |parts| >= 1
    requires forall i :: 0 <= i < |parts| ==> sep !in parts[i]
    ensures Split(Join(parts, sep), sep) == parts
    decreases |parts|
  {
    if |parts| == 1 {
      SplitWithoutSeparator(parts[0], sep);
    } else {
      SplitJoin(parts[1..], sep);
      SplitPiece(parts[0], Join(parts[1..], sep), sep);
      assert parts == [parts[0]] + parts[1..];
    }
  }

  lemma {:induction false} SplitWithoutSeparator(s: string, sep: char)
    requires sep !in s
    ensures Split(s, sep) == [s]
    decreases |s|
  {
    if s != [] {
      SplitWithoutSeparator(s[1..], sep);
      assert [s[0]] + s[1..] == s;
    }
  }

  lemma {:induction false} SplitPiece(a: string, b: string, sep: char)
    requires sep !in a
    ensures Split(a + [sep] + b, sep) == [a] + Split(b, sep)
    decreases |a|
  {
    if a == [] {
      assert (a + [sep] + b)[1..] == b;
    } else {
      SplitPiece(a[1..], b, sep);
      assert (a + [sep] + b)[1..] == a[1..] + [sep] + b;
      assert [a[0]] + a[1..] == a;
    }
  }
}
