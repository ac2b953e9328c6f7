/**
 * The remarks word count: `text.trim().split(/\s+/).filter(w => w.length > 0).length`,
 * and an independent count of where words begin.
 */
module WordCount {
  import opened JsString

  /** `s.split(/\s+/)`: the pieces of `s` between maximal runs of white space.
      A leading or a trailing run yields an empty piece, and `""` yields `[""]`;
      no piece holds white space. */
  function SplitOnWhitespace(s: string): (pieces: seq<string>)
    ensures |pieces| >= 1
    ensures forall p | p in pieces :: NoSpace(p)
    decreases |s|
  {
    if s == [] then [""]
    else if IsSpace(s[0]) then [""] + SplitOnWhitespace(TrimStart(s[1..]))
    else
      var rest := SplitOnWhitespace(s[1..]);
      assert rest[0] in rest;
      [[s[0]] + rest[0]] + rest[1..]
  }

  /** `pieces.filter(w => w.length > 0)` */
  function NonEmpty(pieces: seq<string>): (words: seq<string>)
    ensures forall w | w in words :: w != [] && w in pieces
  {
    if pieces == [] then []
    else if pieces[0] != [] then [pieces[0]] + NonEmpty(pieces[1..])
    else NonEmpty(pieces[1..])
  }

  /** The count the remarks check compares with its limit. */
  function CountWords(s: string): nat {
    |NonEmpty(SplitOnWhitespace(Trim(s)))|
  }

  /** The reference count: the positions holding a non-space character that
      starts the text or follows white space. `afterSpace` says whether the
      character before `s` was white space (or there was none). */
  function WordStarts(s: string, afterSpace: bool): nat {
    if s == [] then 0
    else (if afterSpace && !IsSpace(s[0]) then 1 else 0) + WordStarts(s[1..], IsSpace(s[0]))
  }

  lemma {:induction false} NonEmptyAppend(xs: seq<string>, ys: seq<string>)
    ensures NonEmpty(xs + ys) == NonEmpty(xs) + NonEmpty(ys)
  {
    if xs == [] {
      assert xs + ys == ys;
    } else {
      assert (xs + ys)[1..] == xs[1..] + ys;
      NonEmptyAppend(xs[1..], ys);
    }
  }

  /** Leading white space starts no word. */
  lemma {:induction false} WordStartsSkipsLeadingSpace(s: string)
    ensures WordStarts(TrimStart(s), true) == WordStarts(s, true)
  {
    if s != [] && IsSpace(s[0]) {
      WordStartsSkipsLeadingSpace(s[1..]);
    }
  }

  /** Trailing white space starts no word. */
  lemma {:induction false} WordStartsIgnoresBlankTail(s: string, w: string, afterSpace: bool)
    requires AllSpace(w)
    ensures WordStarts(s + w, afterSpace) == WordStarts(s, afterSpace)
  {
    if s == [] {
      assert s + w == w;
      BlankHasNoWordStarts(w, afterSpace);
    } else {
      assert (s + w)[1..] == s[1..] + w;
      WordStartsIgnoresBlankTail(s[1..], w, IsSpace(s[0]));
    }
  }

  lemma {:induction false} BlankHasNoWordStarts(w: string, afterSpace: bool)
    requires AllSpace(w)
    ensures WordStarts(w, afterSpace) == 0
  {
    if w != [] {
      BlankHasNoWordStarts(w[1..], true);
    }
  }

  /** Splitting and dropping empty pieces leaves one word per word start; the
      pieces after the first leave one per word start not at the very front. */
  lemma {:induction false} SplitCountsWordStarts(s: string)
    ensures |NonEmpty(SplitOnWhitespace(s))| == WordStarts(s, true)
    ensures |NonEmpty(SplitOnWhitespace(s)[1..])| == WordStarts(s, false)
    decreases |s|
  {
    if s == [] {
    } else if IsSpace(s[0]) {
      var t := TrimStart(s[1..]);
      var pieces := SplitOnWhitespace(s);
      assert pieces == [""] + SplitOnWhitespace(t);
      assert pieces[1..] == SplitOnWhitespace(t);
      NonEmptyAppend([""], SplitOnWhitespace(t));
      SplitCountsWordStarts(t);
      WordStartsSkipsLeadingSpace(s[1..]);
    } else {
      var rest := SplitOnWhitespace(s[1..]);
      var pieces := SplitOnWhitespace(s);
      assert pieces == [[s[0]] + rest[0]] + rest[1..];
      assert pieces[1..] == rest[1..];
      NonEmptyAppend([[s[0]] + rest[0]], rest[1..]);
      SplitCountsWordStarts(s[1..]);
    }
  }

  /** The word count equals the number of word starts in the untrimmed text. */
  lemma {:induction false} CountWordsIsWordStarts(s: string)
    ensures CountWords(s) == WordStarts(s, true)
  {
    var a, b := TrimPieces(s);
    var r := Trim(s);
    WordStartsSkipsLeadingSpace(s);
    if r == [] {
      assert SplitOnWhitespace(r) == [""];
      assert NonEmpty([""]) == NonEmpty([]);
      BlankHasNoWordStarts(s, true);
    } else {
      TrimStartOfBlankPrefix(a, r + b);
      WordStartsIgnoresBlankTail(r, b, true);
      SplitCountsWordStarts(r);
    }
  }

  /** `n` copies of the word `w`, each followed by a space. */
  function RepeatedWord(n: nat): string {
    if n == 0 then "" else "w " + RepeatedWord(n - 1)
  }

  lemma {:induction false} RepeatedWordStarts(n: nat)
    ensures WordStarts(RepeatedWord(n), true) == n
  {
    if n > 0 {
      var rest := RepeatedWord(n - 1);
      var s := "w " + rest;
      assert s[1..] == " " + rest;
      assert s[1..][1..] == rest;
      RepeatedWordStarts(n - 1);
    }
  }

  /** A text of `n` words separated by white space counts as `n` words. */
  lemma RepeatedWordCount(n: nat)
    ensures CountWords(RepeatedWord(n)) == n
  {
    CountWordsIsWordStarts(RepeatedWord(n));
    RepeatedWordStarts(n);
  }
}
