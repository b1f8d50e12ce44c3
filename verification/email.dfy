/** The e-mail shape check of the employee form, the pattern
    `^[^\s@]+@[^\s@]+\.[^\s@]+$`, three ways: as the pattern's own split
    (the reference), as the field-wise reading the form relies on, and as
    a single left-to-right scan. `\s` is the same whitespace set `trim`
    strips. */
module Email {
  import opened Strings

  /** A character `[^\s@]` accepts. */
  predicate Plain(c: char) {
    !IsWhitespace(c) && c != '@'
  }

  /** `[^\s@]+`: a non-empty run of plain characters. */
  predicate Segment(t: string) {
    t != [] && forall k | 0 <= k < |t| :: Plain(t[k])
  }

  /** The pattern matches with its `@` at `i` and its `\.` at `j`. */
  predicate SplitAt(s: string, i: int, j: int) {
    && 0 <= i < j < |s|
    && s[i] == '@' && s[j] == '.'
    && Segment(s[..i]) && Segment(s[i + 1..j]) && Segment(s[j + 1..])
  }

  /** The anchored pattern matches `s`: some choice of the `@` and of the
      `.` splits `s` into three plain segments. */
  ghost predicate MatchesPattern(s: string) {
    exists i, j :: SplitAt(s, i, j)
  }

  /** The field-wise reading: one `@`, not first; no whitespace and no
      other `@`; after the `@`, a `.` with text on both sides. */
  predicate IsEmail(s: string) {
    exists i | 0 < i < |s| ::
      && s[i] == '@'
      && (forall m | 0 <= m < |s| && m != i :: Plain(s[m]))
      && (exists j | i + 1 < j < |s| - 1 :: s[j] == '.')
  }

  /** Every character of a match other than its `@` is plain. */
  lemma SplitAtPlain(s: string, i: int, j: int)
    requires SplitAt(s, i, j)
    ensures forall m | 0 <= m < |s| && m != i :: Plain(s[m])
    ensures 0 < i && i + 1 < j < |s| - 1
  {
    forall m | 0 <= m < |s| && m != i ensures Plain(s[m]) {
      if m < i {
        assert s[..i][m] == s[m];
      } else if m < j {
        assert s[i + 1..j][m - i - 1] == s[m];
      } else if m > j {
        assert s[j + 1..][m - j - 1] == s[m];
      }
    }
  }

  /** The reading agrees with the pattern, in both directions. */
  lemma IsEmailMatchesPattern(s: string)
    ensures IsEmail(s) <==> MatchesPattern(s)
  {
    if IsEmail(s) {
      var i :| 0 < i < |s| && s[i] == '@' && (forall m | 0 <= m < |s| && m != i :: Plain(s[m]))
        && (exists j | i + 1 < j < |s| - 1 :: s[j] == '.');
      var j :| i + 1 < j < |s| - 1 && s[j] == '.';
      var local, host, top := s[..i], s[i + 1..j], s[j + 1..];
      assert forall k | 0 <= k < |local| :: local[k] == s[k];
      assert forall k | 0 <= k < |host| :: host[k] == s[i + 1 + k];
      assert forall k | 0 <= k < |top| :: top[k] == s[j + 1 + k];
      assert SplitAt(s, i, j);
    }
    if MatchesPattern(s) {
      var i, j :| SplitAt(s, i, j);
      SplitAtPlain(s, i, j);
    }
  }

  /** No whitespace anywhere: a match never has any, so an address with a
      space before or after it is rejected although its trimmed form is
      accepted. */
  lemma PaddedRejected(s: string)
    requires exists k | 0 <= k < |s| :: IsWhitespace(s[k])
    ensures !IsEmail(s)
  {
  }

  /** The pattern as one left-to-right scan: the plain prefix up to the
      first `@`, then a plain remainder in which a `.` is seen strictly
      inside. */
  method MatchesEmail(s: string) returns (ok: bool)
    ensures ok <==> IsEmail(s)
  {
    var at := 0;
    while at < |s| && Plain(s[at])
      invariant 0 <= at <= |s|
      invariant forall m | 0 <= m < at :: Plain(s[m])
    {
      at := at + 1;
    }
    if at == 0 || at == |s| || s[at] != '@' {
      return false;
    }
    var k := at + 1;
    var dot := false;
    while k < |s| && Plain(s[k])
      invariant at + 1 <= k <= |s|
      invariant forall m | at < m < k :: Plain(s[m])
      invariant dot <==> exists m | at + 1 < m < k && m < |s| - 1 :: s[m] == '.'
    {
      dot := dot || (at + 1 < k < |s| - 1 && s[k] == '.');
      k := k + 1;
    }
    ok := k == |s| && dot;
    if IsEmail(s) {
      var i :| 0 < i < |s| && s[i] == '@' && forall m | 0 <= m < |s| && m != i :: Plain(s[m]);
      assert i == at by {
        assert !Plain(s[i]) && !Plain(s[at]);
      }
    }
  }
}
