/**
 * The ECMAScript string primitives the validator relies on: the `\s`
 * character class and `String.prototype.trim`.
 */
module JsString {

  /** ECMAScript WhiteSpace and LineTerminator code points: exactly what `\s`
      matches and what `trim` removes. */
  predicate IsSpace(c: char) {
    var n := c as int;
    (0x09 <= n <= 0x0D) || n == 0x20 || n == 0xA0 || n == 0x1680 ||
    (0x2000 <= n <= 0x200A) || n == 0x2028 || n == 0x2029 || n == 0x202F ||
    n == 0x205F || n == 0x3000 || n == 0xFEFF
  }

  predicate AllSpace(s: string) {
    forall k | 0 <= k < |s| :: IsSpace(s[k])
  }

  predicate NoSpace(s: string) {
    forall k | 0 <= k < |s| :: !IsSpace(s[k])
  }

  /** `s.trimStart()`: the suffix of `s` that follows its leading white space. */
  function TrimStart(s: string): (r: string)
    ensures |r| <= |s| && r == s[|s| - |r|..]
    ensures AllSpace(s[..|s| - |r|])
    ensures r == [] || !IsSpace(r[0])
  {
    if s != [] && IsSpace(s[0]) then
      var r := TrimStart(s[1..]);
      var n := |s| - |r|;
      assert r == s[n..] by {
        assert s[1..][n - 1..] == s[n..];
      }
      var blank := s[..n];
      assert AllSpace(blank) by {
        forall k | 1 <= k < n
          ensures IsSpace(blank[k])
        {
          assert blank[k] == s[1..][..n - 1][k - 1];
        }
      }
      r
    else s
  }

  /** `s.trimEnd()`: the prefix of `s` that precedes its trailing white space. */
  function TrimEnd(s: string): (r: string)
    ensures |r| <= |s| && r == s[..|r|]
    ensures AllSpace(s[|r|..])
    ensures r == [] || !IsSpace(r[|r| - 1])
  {
    if s != [] && IsSpace(s[|s| - 1]) then
      var r := TrimEnd(s[..|s| - 1]);
      var n := |r|;
      assert r == s[..n] by {
        assert s[..|s| - 1][..n] == s[..n];
      }
      var blank := s[n..];
      assert AllSpace(blank) by {
        forall k | 0 <= k < |blank| - 1
          ensures IsSpace(blank[k])
        {
          assert blank[k] == s[..|s| - 1][n..][k];
        }
      }
      r
    else s
  }

  /** `s.trim()`: neither starts nor ends with white space (see `TrimEmptyIffBlank`
      for when it is empty). */
  function Trim(s: string): (r: string)
    ensures |r| <= |s|
    ensures r == [] || (!IsSpace(r[0]) && !IsSpace(r[|r| - 1]))
  {
    var t := TrimEnd(s);
    var r := TrimStart(t);
    assert r != [] ==> r[|r| - 1] == t[|t| - 1];
    r
  }

  /** `trim` leaves nothing exactly when the text is blank. */
  lemma TrimEmptyIffBlank(s: string)
    ensures Trim(s) == [] <==> AllSpace(s)
  {
    var t := TrimEnd(s);
    assert t == [] ==> s == s[|t|..];
    assert Trim(s) == [] ==> t == t[..|t| - |Trim(s)|];
  }

  /** What `trim` leaves ends where what `trimEnd` leaves ends. */
  lemma {:induction false} TrimIsSuffixOfTrimEnd(s: string)
    ensures |Trim(s)| <= |TrimEnd(s)| && Trim(s) == TrimEnd(s)[|TrimEnd(s)| - |Trim(s)|..]
  {
  }

  /** `trimStart` removes exactly a blank prefix that is followed by a
      non-space character or by nothing. */
  lemma {:induction false} TrimStartOfBlankPrefix(a: string, t: string)
    requires AllSpace(a)
    requires t == [] || !IsSpace(t[0])
    ensures TrimStart(a + t) == t
  {
    if a != [] {
      assert (a + t)[1..] == a[1..] + t;
      TrimStartOfBlankPrefix(a[1..], t);
    }
  }

  /** `trimEnd` removes exactly a blank suffix that follows a non-space
      character or nothing. */
  lemma {:induction false} TrimEndOfBlankSuffix(t: string, b: string)
    requires AllSpace(b)
    requires t == [] || !IsSpace(t[|t| - 1])
    ensures TrimEnd(t + b) == t
  {
    if b != [] {
      assert (t + b)[..|t + b| - 1] == t + b[..|b| - 1];
      TrimEndOfBlankSuffix(t, b[..|b| - 1]);
    }
  }

  /** `trim` is determined by its two properties: whatever core `r` a string
      has between a blank prefix and a blank suffix, with no white space at
      either end of `r`, is what `trim` returns. */
  lemma {:induction false} TrimOfPadded(a: string, r: string, b: string)
    requires AllSpace(a) && AllSpace(b)
    requires r == [] || (!IsSpace(r[0]) && !IsSpace(r[|r| - 1]))
    ensures Trim(a + (r + b)) == r
  {
    if r == [] {
      assert a + (r + b) == a + b;
      assert AllSpace(a + b);
    } else {
      TrimEndOfPadded(a, r, b);
      TrimStartOfBlankPrefix(a, r);
    }
  }

  /** What `trim` removes from `s` is a blank prefix and a blank suffix. */
  lemma {:induction false} TrimPieces(s: string) returns (a: string, b: string)
    ensures s == a + (Trim(s) + b)
    ensures AllSpace(a) && AllSpace(b)
  {
    var t := TrimEnd(s);
    var r := TrimStart(t);
    a, b := t[..|t| - |r|], s[|t|..];
    TrimStartSplits(t);
    TrimEndSplits(s);
    Regroup(a, r, b);
  }

  lemma Regroup(a: string, r: string, b: string)
    ensures (a + r) + b == a + (r + b)
  {
  }

  lemma {:induction false} TrimStartSplits(t: string)
    ensures t == t[..|t| - |TrimStart(t)|] + TrimStart(t)
  {
    var r := TrimStart(t);
    assert r == t[|t| - |r|..];
  }

  lemma {:induction false} TrimEndSplits(s: string)
    ensures s == TrimEnd(s) + s[|TrimEnd(s)|..]
  {
    var t := TrimEnd(s);
    assert t == s[..|t|];
  }

  /** Trimming the end first does not change what `trim` returns. */
  lemma {:induction false} TrimAfterTrimEnd(s: string)
    ensures Trim(TrimEnd(s)) == Trim(s)
  {
    var t := TrimEnd(s);
    assert t + [] == t;
    TrimEndOfBlankSuffix(t, []);
  }

  /** `trimEnd` of a core between blank padding keeps the left padding. */
  lemma {:induction false} TrimEndOfPadded(a: string, r: string, b: string)
    requires AllSpace(b) && r != [] && !IsSpace(r[|r| - 1])
    ensures TrimEnd(a + (r + b)) == a + r
  {
    var core := a + r;
    assert a + (r + b) == core + b;
    assert core[|core| - 1] == r[|r| - 1];
    TrimEndOfBlankSuffix(core, b);
  }
}
