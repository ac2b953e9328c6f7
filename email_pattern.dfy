/**
 * The e-mail format check of the registration form: the regular expression
 * `/^[^\s@]+@[^\s@]+\.[^\s@]+$/` as a predicate on strings, and the shape of
 * address it accepts.
 */
module EmailPattern {
  import opened JsString

  /** `[^\s@]`: any character but white space and `@`. */
  predicate IsAddressChar(c: char) {
    !IsSpace(c) && c != '@'
  }

  predicate AllAddressChars(s: string) {
    forall k | 0 <= k < |s| :: IsAddressChar(s[k])
  }

  /** The pattern matches `s` when the literal `@` at index `i` and the literal
      `.` at index `j` cut `s` into three non-empty runs of `[^\s@]`. Since the
      pattern is anchored at both ends, this is what the backtracking matcher
      accepts. */
  predicate MatchesAt(s: string, i: int, j: int) {
    0 < i && i + 1 < j && j + 1 < |s| &&
    s[i] == '@' && s[j] == '.' &&
    AllAddressChars(s[..i]) && AllAddressChars(s[i + 1..j]) && AllAddressChars(s[j + 1..])
  }

  /** `/^[^\s@]+@[^\s@]+\.[^\s@]+$/.test(s)` */
  predicate MatchesEmailPattern(s: string) {
    exists i, j | 0 <= i < |s| && 0 <= j < |s| :: MatchesAt(s, i, j)
  }

  /** Index of the first occurrence of `c` in `s`. */
  function IndexOf(s: string, c: char): (r: nat)
    requires c in s
    ensures r < |s| && s[r] == c && c !in s[..r]
  {
    if s[0] == c then 0 else 1 + IndexOf(s[1..], c)
  }

  /** The accepted shape, clause by clause: no white space, exactly one `@`
      (the first one, with none after it), a non-empty local part before it,
      and a domain after it holding a `.` with a character on either side. */
  predicate HasEmailShape(s: string) {
    NoSpace(s) &&
    '@' in s &&
    var at := IndexOf(s, '@');
    var domain := s[at + 1..];
    0 < at && '@' !in domain && |domain| >= 2 && '.' in domain[1..|domain| - 1]
  }

  /** The pattern accepts exactly the strings of that shape. */
  lemma {:induction false} EmailPatternShape(s: string)
    ensures MatchesEmailPattern(s) <==> HasEmailShape(s)
  {
    if MatchesEmailPattern(s) {
      var i, j :| 0 <= i < |s| && 0 <= j < |s| && MatchesAt(s, i, j);
      MatchHasShape(s, i, j);
    }
    if HasEmailShape(s) {
      var i, j := ShapeHasMatch(s);
    }
  }

  lemma {:induction false} MatchHasShape(s: string, i: int, j: int)
    requires MatchesAt(s, i, j)
    ensures HasEmailShape(s)
  {
    assert !IsSpace('.') && !IsSpace('@');
    forall k | 0 <= k < |s|
      ensures !IsSpace(s[k]) && (s[k] == '@' ==> k == i)
    {
      if k < i {
        assert s[k] == s[..i][k];
      } else if i < k < j {
        assert s[k] == s[i + 1..j][k - i - 1];
      } else if j < k {
        assert s[k] == s[j + 1..][k - j - 1];
      }
    }
    var at := IndexOf(s, '@');
    assert at == i;
    var domain := s[i + 1..];
    assert domain[j - i - 1] == '.';
    assert domain[1..|domain| - 1][j - i - 2] == '.';
  }

  lemma {:induction false} ShapeHasMatch(s: string) returns (i: int, j: int)
    requires HasEmailShape(s)
    ensures 0 <= i < |s| && 0 <= j < |s| && MatchesAt(s, i, j)
  {
    i := IndexOf(s, '@');
    var domain := s[i + 1..];
    var inner := domain[1..|domain| - 1];
    j := i + 2 + IndexOf(inner, '.');
    assert s[j] == '.' by {
      assert s[j] == inner[j - i - 2];
    }
    assert AllAddressChars(s[..i]);
    forall k | i < k < |s|
      ensures IsAddressChar(s[k])
    {
      assert s[k] == domain[k - i - 1];
    }
    var host, top := s[i + 1..j], s[j + 1..];
    forall k | 0 <= k < |host|
      ensures IsAddressChar(host[k])
    {
      assert host[k] == s[i + 1 + k];
    }
    forall k | 0 <= k < |top|
      ensures IsAddressChar(top[k])
    {
      assert top[k] == s[j + 1 + k];
    }
  }

  /** Addresses the form accepts. */
  lemma AcceptedExamples()
    ensures MatchesEmailPattern("a@b.co")
    ensures MatchesEmailPattern("a@b.c.d")
  {
    assert MatchesAt("a@b.co", 1, 3);
    assert MatchesAt("a@b.c.d", 1, 5);
  }

  /** Addresses the form rejects: a `.` at the end of the domain, ... */
  lemma DotAtDomainEndRejected()
    ensures !MatchesEmailPattern("a@b.")
  {
    EmailPatternShape("a@b.");
    assert "a@b."[2..][1..1] == [];
  }

  /** ... a `.` at the start of the domain, ... */
  lemma DotAtDomainStartRejected()
    ensures !MatchesEmailPattern("a@.b")
  {
    EmailPatternShape("a@.b");
    assert "a@.b"[2..][1..1] == [];
  }

  /** ... no `@` at all, ... */
  lemma MissingAtRejected()
    ensures !MatchesEmailPattern("not-an-email")
  {
    var s := "not-an-email";
    assert forall i | 0 <= i < |s| :: s[i] != '@';
  }

  /** ... a second `@`, ... */
  lemma SecondAtRejected()
    ensures !MatchesEmailPattern("a@b@c.d")
  {
    EmailPatternShape("a@b@c.d");
    assert "a@b@c.d"[2..][1] == '@';
  }

  /** ... and inner white space. */
  lemma InnerSpaceRejected()
    ensures !MatchesEmailPattern("a b@c.d")
  {
    EmailPatternShape("a b@c.d");
    assert IsSpace("a b@c.d"[1]);
  }

  /** A blank string never matches: the pattern needs an `@`. */
  lemma {:induction false} BlankNeverMatches(s: string)
    requires AllSpace(s)
    ensures !MatchesEmailPattern(s)
  {
  }
}
