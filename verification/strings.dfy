/** The JavaScript string primitives the application relies on:
    `String.prototype.trim`, the `\s` character class, and a global
    (`'g'`-flag) literal replacement. */
module Strings {

  /** The code points matched by `\s` in a JavaScript regular expression and
      stripped by `String.prototype.trim`: the WhiteSpace and LineTerminator
      code points of section 12.2 and 12.3 of ECMA-262. */
  predicate IsWhitespace(c: char) {
    var n := c as int;
    || n == 0x09 || n == 0x0A || n == 0x0B || n == 0x0C || n == 0x0D
    || n == 0x20 || n == 0xA0 || n == 0x1680
    || (0x2000 <= n <= 0x200A)
    || n == 0x2028 || n == 0x2029 || n == 0x202F || n == 0x205F
    || n == 0x3000 || n == 0xFEFF
  }

  /** Every character of `s` is whitespace (vacuously true of ""). */
  predicate AllWhitespace(s: string) {
    forall i | 0 <= i < |s| :: IsWhitespace(s[i])
  }

  /** Leading whitespace removed. */
  function TrimStart(s: string): string
    decreases |s|
  {
    if |s| > 0 && IsWhitespace(s[0]) then TrimStart(s[1..]) else s
  }

  /** `TrimStart` keeps the suffix of `s` that starts at its first
      non-whitespace character. */
  lemma {:induction false} TrimStartFacts(s: string)
    ensures var r := TrimStart(s);
      |r| <= |s| && r == s[|s| - |r|..]
      && (forall i | 0 <= i < |s| - |r| :: IsWhitespace(s[i]))
      && (r != [] ==> !IsWhitespace(r[0]))
    decreases |s|
  {
    if |s| > 0 && IsWhitespace(s[0]) {
      TrimStartFacts(s[1..]);
    }
  }

  /** Trailing whitespace removed. */
  function TrimEnd(s: string): string
    decreases |s|
  {
    if |s| > 0 && IsWhitespace(s[|s| - 1]) then TrimEnd(s[..|s| - 1]) else s
  }

  /** `TrimEnd` keeps the prefix of `s` that ends at its last
      non-whitespace character. */
  lemma {:induction false} TrimEndFacts(s: string)
    ensures var r := TrimEnd(s);
      |r| <= |s| && r == s[..|r|]
      && (forall i | |r| <= i < |s| :: IsWhitespace(s[i]))
      && (r != [] ==> !IsWhitespace(r[|r| - 1]))
    decreases |s|
  {
    if |s| > 0 && IsWhitespace(s[|s| - 1]) {
      TrimEndFacts(s[..|s| - 1]);
    }
  }

  /** `s.trim()`. */
  function Trim(s: string): (r: string)
    ensures |r| <= |s|
    ensures r != [] ==> !IsWhitespace(r[0]) && !IsWhitespace(r[|r| - 1])
    ensures r == [] <==> AllWhitespace(s)
  {
    var t := TrimStart(s);
    var r := TrimEnd(t);
    TrimParts(s, t, r);
    r
  }

  /** How the two halves of `Trim` combine. */
  lemma TrimParts(s: string, t: string, r: string)
    requires t == TrimStart(s) && r == TrimEnd(t)
    ensures |r| <= |s|
    ensures r != [] ==> !IsWhitespace(r[0]) && !IsWhitespace(r[|r| - 1])
    ensures r == [] <==> AllWhitespace(s)
  {
    TrimStartFacts(s);
    TrimEndFacts(t);
    assert r == [] ==> t == [];
    if r != [] {
      assert r[0] == t[0] == s[|s| - |t|];
    }
  }

  /** What `trim` keeps: the slice of `s` between a leading and a trailing
      run of whitespace. With the ends `Trim` promises, no other slice
      qualifies. */
  lemma TrimIsSlice(s: string)
    ensures exists i, j | 0 <= i <= j <= |s| ::
      Trim(s) == s[i..j] && AllWhitespace(s[..i]) && AllWhitespace(s[j..])
  {
    var t := TrimStart(s);
    var r := TrimEnd(t);
    assert Trim(s) == r;
    TrimStartFacts(s);
    TrimEndFacts(t);
    var i := |s| - |t|;
    var j := i + |r|;
    assert r == s[i..j] by {
      assert t == s[i..];
      assert r == t[..|r|];
    }
    assert AllWhitespace(s[..i]) by {
      assert forall k | 0 <= k < i :: s[..i][k] == s[k];
    }
    assert AllWhitespace(s[j..]) by {
      forall k | 0 <= k < |s| - j ensures IsWhitespace(s[j..][k]) {
        assert s[j..][k] == t[|r| + k];
      }
    }
  }

  /** A string with no surrounding whitespace trims to itself. */
  lemma TrimOfTrimmed(s: string)
    requires s == [] || (!IsWhitespace(s[0]) && !IsWhitespace(s[|s| - 1]))
    ensures Trim(s) == s
  {
  }

  // ---------------------------------------------------------------------
  // Literal replace-all

  /** `pat` occurs in `s` starting at index `i`. */
  predicate MatchAt(s: string, pat: string, i: int) {
    0 <= i && i + |pat| <= |s| && s[i..i + |pat|] == pat
  }

  /** `pat` occurs nowhere in `s`. */
  ghost predicate Absent(s: string, pat: string) {
    forall i :: !MatchAt(s, pat, i)
  }

  /** Number of occurrences the left-to-right, non-overlapping scan of a
      global regular-expression replacement finds. */
  function Count(s: string, pat: string): nat
    requires pat != []
    decreases |s|
  {
    if |s| < |pat| then 0
    else if s[..|pat|] == pat then 1 + Count(s[|pat|..], pat)
    else Count(s[1..], pat)
  }

  /** `s.replace(new RegExp(pat, 'g'), rep)` for a pattern with no regular
      expression metacharacters and a replacement with no `$` patterns:
      scanning left to right, each occurrence of `pat` is replaced by `rep`
      and scanning resumes after it. */
  function ReplaceAll(s: string, pat: string, rep: string): (r: string)
    requires pat != []
    decreases |s|
  {
    if |s| < |pat| then s
    else if s[..|pat|] == pat then rep + ReplaceAll(s[|pat|..], pat, rep)
    else [s[0]] + ReplaceAll(s[1..], pat, rep)
  }

  /** When the scan finds nothing, `pat` occurs nowhere. */
  lemma {:induction false} CountZeroAbsent(s: string, pat: string)
    requires pat != []
    requires Count(s, pat) == 0
    ensures Absent(s, pat)
    decreases |s|
  {
    if |s| >= |pat| {
      CountZeroAbsent(s[1..], pat);
      forall i | 0 < i && i + |pat| <= |s|
        ensures !MatchAt(s, pat, i)
      {
        assert s[1..][i - 1..i - 1 + |pat|] == s[i..i + |pat|];
        assert !MatchAt(s[1..], pat, i - 1);
      }
      assert s[..|pat|] != pat;
    }
  }

  /** When the scan finds something, it found an occurrence of `pat`. */
  lemma {:induction false} CountPositiveMatch(s: string, pat: string) returns (i: nat)
    requires pat != []
    requires Count(s, pat) > 0
    ensures MatchAt(s, pat, i)
    decreases |s|
  {
    if s[..|pat|] == pat {
      i := 0;
    } else {
      var j := CountPositiveMatch(s[1..], pat);
      assert s[1..][j..j + |pat|] == s[j + 1..j + 1 + |pat|];
      i := j + 1;
    }
  }

  /** The scan finds no occurrence exactly when `pat` occurs nowhere. */
  lemma CountZeroIffAbsent(s: string, pat: string)
    requires pat != []
    ensures Count(s, pat) == 0 <==> Absent(s, pat)
  {
    if Count(s, pat) == 0 {
      CountZeroAbsent(s, pat);
    } else {
      var i := CountPositiveMatch(s, pat);
    }
  }

  /** Each replacement changes the length by `|rep| - |pat|`. */
  lemma {:induction false} ReplaceAllLength(s: string, pat: string, rep: string)
    requires pat != []
    ensures |ReplaceAll(s, pat, rep)| == |s| + Count(s, pat) * (|rep| - |pat|)
    decreases |s|
  {
    if |s| < |pat| {
    } else if s[..|pat|] == pat {
      ReplaceAllLength(s[|pat|..], pat, rep);
      Distribute(Count(s[|pat|..], pat), |rep| - |pat|);
    } else {
      ReplaceAllLength(s[1..], pat, rep);
    }
  }

  lemma Distribute(c: int, d: int)
    ensures (1 + c) * d == d + c * d
  {
  }

  /** Nothing to replace leaves the text unchanged. */
  lemma {:induction false} ReplaceAllAbsent(s: string, pat: string, rep: string)
    requires pat != []
    requires Count(s, pat) == 0
    ensures ReplaceAll(s, pat, rep) == s
    decreases |s|
  {
    if |s| < |pat| {
    } else if s[..|pat|] == pat {
    } else {
      ReplaceAllAbsent(s[1..], pat, rep);
      assert s == [s[0]] + s[1..];
    }
  }

  /** A text without the pattern's first character holds no occurrence. */
  lemma {:induction false} CountWithoutFirstChar(s: string, pat: string)
    requires pat != []
    requires pat[0] !in s
    ensures Count(s, pat) == 0
    decreases |s|
  {
    if |s| < |pat| {
    } else {
      assert s[..|pat|][0] == s[0];
      CountWithoutFirstChar(s[1..], pat);
    }
  }

  /** A text `a + pat + b` in which only the middle part can start an
      occurrence: the single occurrence is replaced and the rest is kept. */
  lemma {:induction false} ReplaceAllSingle(a: string, pat: string, rep: string, b: string)
    requires pat != []
    requires pat[0] !in a && pat[0] !in b
    ensures Count(a + pat + b, pat) == 1
    ensures ReplaceAll(a + pat + b, pat, rep) == a + rep + b
    decreases |a|
  {
    var s := a + pat + b;
    if a == [] {
      assert s[..|pat|] == pat && s[|pat|..] == b;
      CountWithoutFirstChar(b, pat);
      ReplaceAllAbsent(b, pat, rep);
    } else {
      assert s[0] == a[0] && s[..|pat|][0] == a[0];
      assert s[1..] == a[1..] + pat + b;
      ReplaceAllSingle(a[1..], pat, rep, b);
      assert a + rep + b == [a[0]] + (a[1..] + rep + b);
    }
  }

  /** The scan replaces the first occurrence of a text whose prefix cannot
      start one, then carries on with the rest. */
  lemma {:induction false} ReplaceAllFirst(a: string, pat: string, rep: string, b: string)
    requires pat != []
    requires pat[0] !in a
    ensures Count(a + pat + b, pat) == 1 + Count(b, pat)
    ensures ReplaceAll(a + pat + b, pat, rep) == a + rep + ReplaceAll(b, pat, rep)
    decreases |a|
  {
    var s := a + pat + b;
    if a == [] {
      assert s[..|pat|] == pat && s[|pat|..] == b;
    } else {
      assert s[0] == a[0] && s[..|pat|][0] == a[0];
      assert s[1..] == a[1..] + pat + b;
      ReplaceAllFirst(a[1..], pat, rep, b);
      assert a + rep + ReplaceAll(b, pat, rep) == [a[0]] + (a[1..] + rep + ReplaceAll(b, pat, rep));
    }
  }

  /** `parts` joined with `sep` between neighbours. */
  function Join(parts: seq<string>, sep: string): string
    decreases |parts|
  {
    if parts == [] then []
    else if |parts| == 1 then parts[0]
    else parts[0] + sep + Join(parts[1..], sep)
  }

  /** Every occurrence is replaced: a text made of literal parts, none of
      which holds the first character of `pat`, separated by `pat`, has one
      occurrence per separator, and each becomes `rep`. */
  lemma {:induction false} ReplaceAllEvery(parts: seq<string>, pat: string, rep: string)
    requires pat != []
    requires forall k | 0 <= k < |parts| :: pat[0] !in parts[k]
    ensures parts != [] ==> Count(Join(parts, pat), pat) == |parts| - 1
    ensures ReplaceAll(Join(parts, pat), pat, rep) == Join(parts, rep)
    decreases |parts|
  {
    if parts == [] {
    } else if |parts| == 1 {
      CountWithoutFirstChar(parts[0], pat);
      ReplaceAllAbsent(parts[0], pat, rep);
    } else {
      ReplaceAllFirst(parts[0], pat, rep, Join(parts[1..], pat));
      ReplaceAllEvery(parts[1..], pat, rep);
    }
  }

  /** Matching is unaffected by a prefix, up to the shift. */
  lemma MatchShift(u: string, v: string, pat: string, i: int)
    requires 0 <= i
    ensures MatchAt(u + v, pat, |u| + i) <==> MatchAt(v, pat, i)
  {
    if i + |pat| <= |v| {
      assert (u + v)[|u| + i..|u| + i + |pat|] == v[i..i + |pat|];
    }
  }

  /** A text that starts with `q`, where no occurrence of `pat` starts
      inside `q`: the scan walks over `q` unchanged. */
  lemma {:induction false} ReplaceAllKeepsPrefix(q: string, b: string, pat: string, rep: string)
    requires pat != []
    requires forall i | 0 <= i < |q| :: !MatchAt(q + b, pat, i)
    ensures ReplaceAll(q + b, pat, rep) == q + ReplaceAll(b, pat, rep)
    decreases |q|
  {
    var s := q + b;
    if q == [] {
      assert s == b;
    } else if |s| < |pat| {
      assert ReplaceAll(b, pat, rep) == b;
    } else {
      assert !MatchAt(s, pat, 0);
      assert s[1..] == q[1..] + b;
      assert s == [q[0]] + (q[1..] + b);
      forall i | 0 <= i < |q[1..]| ensures !MatchAt(q[1..] + b, pat, i) {
        assert !MatchAt(s, pat, 1 + i);
        MatchShift([q[0]], q[1..] + b, pat, i);
      }
      ReplaceAllKeepsPrefix(q[1..], b, pat, rep);
      assert q + ReplaceAll(b, pat, rep) == [q[0]] + (q[1..] + ReplaceAll(b, pat, rep));
    }
  }

  /** Dropping the first `d` characters of a text's prefix keeps the
      no-overlap condition of `ReplaceAllKeeps`. */
  lemma NoOverlapShift(a: string, q: string, b: string, pat: string, d: nat)
    requires 0 < d <= |a|
    requires forall i | 0 <= i < |a| + |q| && i + |pat| > |a| :: !MatchAt(a + q + b, pat, i)
    ensures forall i | 0 <= i < |a[d..]| + |q| && i + |pat| > |a[d..]| :: !MatchAt(a[d..] + q + b, pat, i)
  {
    assert a + q + b == a[..d] + (a[d..] + q + b);
    forall i | 0 <= i < |a[d..]| + |q| && i + |pat| > |a[d..]| ensures !MatchAt(a[d..] + q + b, pat, i) {
      assert !MatchAt(a + q + b, pat, d + i);
      MatchShift(a[..d], a[d..] + q + b, pat, i);
    }
  }

  /** A piece `q` of a text that no occurrence of `pat` overlaps survives
      the replacement: the result is some rewritten prefix, then `q`, then
      the rewritten suffix. */
  lemma {:induction false} ReplaceAllKeeps(a: string, q: string, b: string, pat: string, rep: string)
      returns (x: string)
    requires pat != []
    requires forall i | 0 <= i < |a| + |q| && i + |pat| > |a| :: !MatchAt(a + q + b, pat, i)
    ensures ReplaceAll(a + q + b, pat, rep) == x + q + ReplaceAll(b, pat, rep)
    decreases |a|
  {
    var s := a + q + b;
    if a == [] {
      assert s == q + b;
      ReplaceAllKeepsPrefix(q, b, pat, rep);
      x := [];
    } else if |s| < |pat| {
      assert ReplaceAll(b, pat, rep) == b;
      x := a;
    } else if s[..|pat|] == pat {
      assert MatchAt(s, pat, 0);
      assert |pat| <= |a|;
      assert s[|pat|..] == a[|pat|..] + q + b;
      assert ReplaceAll(s, pat, rep) == rep + ReplaceAll(a[|pat|..] + q + b, pat, rep);
      NoOverlapShift(a, q, b, pat, |pat|);
      var x' := ReplaceAllKeeps(a[|pat|..], q, b, pat, rep);
      x := rep + x';
      assert rep + (x' + q + ReplaceAll(b, pat, rep)) == x + q + ReplaceAll(b, pat, rep);
    } else {
      assert s[1..] == a[1..] + q + b;
      assert ReplaceAll(s, pat, rep) == [s[0]] + ReplaceAll(a[1..] + q + b, pat, rep);
      NoOverlapShift(a, q, b, pat, 1);
      var x' := ReplaceAllKeeps(a[1..], q, b, pat, rep);
      x := [a[0]] + x';
      assert [a[0]] + (x' + q + ReplaceAll(b, pat, rep)) == x + q + ReplaceAll(b, pat, rep);
    }
  }

  /** `t` is `a + pat + b` where neither `a` nor `b` holds the first
      character of `pat`: the placeholder appears once and nothing else in
      `t` could start an occurrence. */
  ghost predicate PlacedOnce(t: string, pat: string) {
    pat != [] && exists a, b :: t == a + pat + b && pat[0] !in a && pat[0] !in b
  }

  lemma PlacedOnceIntro(a: string, pat: string, b: string)
    requires pat != [] && pat[0] !in a && pat[0] !in b
    ensures PlacedOnce(a + pat + b, pat)
  {
  }

  /** The same, for a placeholder that opens the text. */
  lemma PlacedOnceAtStart(pat: string, b: string)
    requires pat != [] && pat[0] !in b
    ensures PlacedOnce(pat + b, pat)
  {
    assert pat + b == [] + pat + b;
  }

  /** A text that holds `pat` once in this way is found to hold it exactly
      once, and replacing it rewrites only that occurrence. */
  lemma PlacedOnceReplace(t: string, pat: string, rep: string) returns (a: string, b: string)
    requires PlacedOnce(t, pat)
    ensures t == a + pat + b
    ensures Count(t, pat) == 1
    ensures ReplaceAll(t, pat, rep) == a + rep + b
  {
    a, b :| t == a + pat + b && pat[0] !in a && pat[0] !in b;
    ReplaceAllSingle(a, pat, rep, b);
  }

  // ---------------------------------------------------------------------
  // Case mapping

  /** The ASCII capitals, and the small letters in the same order. */
  const Upper: string := "ABCDEFGHIJKLMNOPQRSTUVWXYZ"
  const Lower: string := "abcdefghijklmnopqrstuvwxyz"

  /** Each capital sits 32 code points below its small letter. */
  lemma {:induction false} CaseOffset(k: int)
    requires 0 <= k < |Upper|
    ensures 'A' <= Upper[k] <= 'Z' && 'a' <= Lower[k] <= 'z'
    ensures (Upper[k] as int + 32) as char == Lower[k]
  {
    if k < 13 {
      if k < 7 {
        assert k == 0 || k == 1 || k == 2 || k == 3 || k == 4 || k == 5 || k == 6;
      } else {
        assert k == 7 || k == 8 || k == 9 || k == 10 || k == 11 || k == 12;
      }
    } else if k < 20 {
      assert k == 13 || k == 14 || k == 15 || k == 16 || k == 17 || k == 18 || k == 19;
    } else {
      assert k == 20 || k == 21 || k == 22 || k == 23 || k == 24 || k == 25;
    }
  }

  /** Every character from `A` to `Z` is one of the capitals. */
  lemma {:induction false} CapitalInUpper(c: char)
    requires 'A' <= c <= 'Z'
    ensures c in Upper
  {
    var k := c as int - 'A' as int;
    CaseOffsetIndex(k);
    assert Upper[k] == c;
  }

  /** The capitals are consecutive code points from `A`. */
  lemma {:induction false} CaseOffsetIndex(k: int)
    requires 0 <= k < |Upper|
    ensures Upper[k] as int == 'A' as int + k
  {
    if k < 13 {
      if k < 7 {
        assert k == 0 || k == 1 || k == 2 || k == 3 || k == 4 || k == 5 || k == 6;
      } else {
        assert k == 7 || k == 8 || k == 9 || k == 10 || k == 11 || k == 12;
      }
    } else if k < 20 {
      assert k == 13 || k == 14 || k == 15 || k == 16 || k == 17 || k == 18 || k == 19;
    } else {
      assert k == 20 || k == 21 || k == 22 || k == 23 || k == 24 || k == 25;
    }
  }

  /** `String.prototype.toLowerCase` on the ASCII letters: each capital
      becomes the small letter at the same place of the alphabet, and every
      other character is kept. */
  function AsciiLower(s: string): (r: string)
    ensures |r| == |s|
    ensures forall i, k | 0 <= i < |s| && 0 <= k < |Upper| && s[i] == Upper[k] :: r[i] == Lower[k]
    ensures forall i | 0 <= i < |s| && s[i] !in Upper :: r[i] == s[i]
  {
    LowerCorrect(s);
    seq(|s|, i requires 0 <= i < |s| =>
      if 'A' <= s[i] <= 'Z' then (s[i] as int + 32) as char else s[i])
  }

  lemma LowerCorrect(s: string)
    ensures var r := seq(|s|, i requires 0 <= i < |s| =>
        if 'A' <= s[i] <= 'Z' then (s[i] as int + 32) as char else s[i]);
      && (forall i, k | 0 <= i < |s| && 0 <= k < |Upper| && s[i] == Upper[k] :: r[i] == Lower[k])
      && (forall i | 0 <= i < |s| && s[i] !in Upper :: r[i] == s[i])
  {
    var r := seq(|s|, i requires 0 <= i < |s| =>
        if 'A' <= s[i] <= 'Z' then (s[i] as int + 32) as char else s[i]);
    forall i, k | 0 <= i < |s| && 0 <= k < |Upper| && s[i] == Upper[k] ensures r[i] == Lower[k] {
      CaseOffset(k);
    }
    forall i | 0 <= i < |s| && s[i] !in Upper ensures r[i] == s[i] {
      if 'A' <= s[i] <= 'Z' {
        CapitalInUpper(s[i]);
      }
    }
  }

  /** No capital is left after lower-casing. */
  lemma AsciiLowerLeavesNoCapital(s: string)
    ensures forall i | 0 <= i < |s| :: AsciiLower(s)[i] !in Upper
  {
    var r := AsciiLower(s);
    forall i | 0 <= i < |s| ensures r[i] !in Upper {
      if s[i] in Upper {
        var k :| 0 <= k < |Upper| && s[i] == Upper[k];
        CaseOffset(k);
        if r[i] in Upper {
          var m :| 0 <= m < |Upper| && r[i] == Upper[m];
          CaseOffset(m);
        }
      }
    }
  }

  /** Lower-casing a lower-cased text changes nothing. */
  lemma AsciiLowerIdempotent(s: string)
    ensures AsciiLower(AsciiLower(s)) == AsciiLower(s)
  {
    var r := AsciiLower(s);
    AsciiLowerLeavesNoCapital(s);
    assert forall i | 0 <= i < |r| :: AsciiLower(r)[i] == r[i];
  }
}
