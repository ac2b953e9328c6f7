/**
 * The label shown in a "<label> is required" message for a field that the
 * browser reports as missing: the text of its `<label for=…>` element with a
 * trailing required-marker `*` removed, or the field's name.
 */
module LabelText {
  import opened Optional
  import opened JsString

  /** `t` matches `\s*\*\s*` up to its end: white space, one `*`, white space. */
  predicate IsMarkerTail(t: string) {
    exists k | 0 <= k < |t| :: t[k] == '*' && AllSpace(t[..k]) && AllSpace(t[k + 1..])
  }

  /** `text.replace(/\s*\*\s*$/, '')` */
  function StripMarker(text: string): string {
    var t := TrimEnd(text);
    if t != [] && t[|t| - 1] == '*' then TrimEnd(t[..|t| - 1]) else text
  }

  /** `labelElement?.textContent?.replace(/\s*\*\s*$/, '').trim() || field.name`:
      the derived label is the field's name, or a non-empty text with no white
      space at either end. */
  function FieldLabel(labelText: Option<string>, name: string): (shown: string)
    ensures shown == name || (shown != [] && !IsSpace(shown[0]) && !IsSpace(shown[|shown| - 1]))
  {
    match labelText
    case None => name
    case Some(text) =>
      var cleaned := Trim(StripMarker(text));
      if |cleaned| == 0 then name else cleaned
  }

  /** A marker tail holds exactly one non-space character, the `*`. */
  lemma {:induction false} MarkerTailHasOneNonSpace(t: string, x: int, y: int)
    requires 0 <= x < |t| && !IsSpace(t[x])
    requires 0 <= y < |t| && !IsSpace(t[y])
    ensures IsMarkerTail(t) ==> x == y && t[x] == '*'
  {
    if IsMarkerTail(t) {
      var k :| 0 <= k < |t| && t[k] == '*' && AllSpace(t[..k]) && AllSpace(t[k + 1..]);
      OnlyNonSpaceIsStar(t, k, x);
      OnlyNonSpaceIsStar(t, k, y);
    }
  }

  lemma {:induction false} OnlyNonSpaceIsStar(t: string, k: int, x: int)
    requires 0 <= k < |t| && AllSpace(t[..k]) && AllSpace(t[k + 1..])
    requires 0 <= x < |t| && !IsSpace(t[x])
    ensures x == k
  {
  }

  /** `replace` with a non-global pattern removes the leftmost match. The
      pattern ends in `$`, so a match runs to the end of the text: the result
      is the text cut at the first position where a marker tail starts, or the
      whole text when there is no such position. */
  lemma {:induction false} StripMarkerCutsAtFirstMatch(text: string)
    ensures |StripMarker(text)| <= |text| && StripMarker(text) == text[..|StripMarker(text)|]
    ensures StripMarker(text) == text <==> forall p | 0 <= p <= |text| :: !IsMarkerTail(text[p..])
    ensures StripMarker(text) != text ==>
      IsMarkerTail(text[|StripMarker(text)|..]) &&
      forall q | 0 <= q < |StripMarker(text)| :: !IsMarkerTail(text[q..])
  {
    var t := TrimEnd(text);
    if t != [] && t[|t| - 1] == '*' {
      MarkedTextCut(text);
    } else {
      forall p | 0 <= p <= |text|
        ensures !IsMarkerTail(text[p..])
      {
        UnmarkedTextHasNoMatch(text, p);
      }
    }
  }

  lemma {:induction false} MarkedTextCut(text: string)
    requires TrimEnd(text) != [] && TrimEnd(text)[|TrimEnd(text)| - 1] == '*'
    ensures |StripMarker(text)| < |text| && StripMarker(text) == text[..|StripMarker(text)|]
    ensures IsMarkerTail(text[|StripMarker(text)|..])
    ensures forall q | 0 <= q < |StripMarker(text)| :: !IsMarkerTail(text[q..])
  {
    var t := TrimEnd(text);
    var n := |t|;
    var u := TrimEnd(t[..n - 1]);
    var p := |u|;
    assert StripMarker(text) == u;
    assert u == text[..p];
    CutIsMarkerTail(text, t, u);
    forall q | 0 <= q < p
      ensures !IsMarkerTail(text[q..])
    {
      EarlierCutIsNoMarkerTail(text, t, u, q);
    }
  }

  lemma {:induction false} CutIsMarkerTail(text: string, t: string, u: string)
    requires t == TrimEnd(text) && t != [] && t[|t| - 1] == '*'
    requires u == TrimEnd(t[..|t| - 1])
    ensures IsMarkerTail(text[|u|..])
  {
    var n, p := |t|, |u|;
    var tail := text[p..];
    var k := n - 1 - p;
    assert tail[k] == '*';
    var blank := tail[..k];
    assert AllSpace(blank) by {
      forall j | 0 <= j < k
        ensures IsSpace(blank[j])
      {
        assert blank[j] == t[..n - 1][p..][j];
      }
    }
    var rest := tail[k + 1..];
    assert AllSpace(rest) by {
      forall j | 0 <= j < |rest|
        ensures IsSpace(rest[j])
      {
        assert rest[j] == text[n..][j];
      }
    }
  }

  lemma {:induction false} EarlierCutIsNoMarkerTail(text: string, t: string, u: string, q: int)
    requires t == TrimEnd(text) && t != [] && t[|t| - 1] == '*'
    requires u == TrimEnd(t[..|t| - 1])
    requires 0 <= q < |u|
    ensures !IsMarkerTail(text[q..])
  {
    var n, p := |t|, |u|;
    var tail := text[q..];
    assert tail[p - 1 - q] == u[p - 1];
    assert tail[n - 1 - q] == '*';
    MarkerTailHasOneNonSpace(tail, p - 1 - q, n - 1 - q);
  }

  lemma {:induction false} UnmarkedTextHasNoMatch(text: string, p: int)
    requires 0 <= p <= |text|
    requires TrimEnd(text) == [] || TrimEnd(text)[|TrimEnd(text)| - 1] != '*'
    ensures !IsMarkerTail(text[p..])
  {
    var t := TrimEnd(text);
    var n := |t|;
    var tail := text[p..];
    if p < n {
      assert tail[n - 1 - p] == t[n - 1];
      MarkerTailHasOneNonSpace(tail, n - 1 - p, n - 1 - p);
    } else {
      assert AllSpace(tail) by {
        assert tail == text[n..][p - n..];
      }
    }
  }

  /** A label ending in the required marker: one `*` and the white space
      around it go, the rest is trimmed, and a label that is nothing but the
      marker gives way to the field's name. */
  lemma {:induction false} MarkedLabel(text: string, gap: string, name: string)
    requires AllSpace(gap)
    ensures FieldLabel(Some(text + ("*" + gap)), name) == if AllSpace(text) then name else Trim(text)
  {
    StripsMarker(text, gap);
    TrimAfterTrimEnd(text);
    TrimEmptyIffBlank(text);
  }

  lemma {:induction false} StripsMarker(text: string, gap: string)
    requires AllSpace(gap)
    ensures StripMarker(text + ("*" + gap)) == TrimEnd(text)
  {
    var full := text + ("*" + gap);
    assert full == (text + "*") + gap;
    TrimEndOfBlankSuffix(text + "*", gap);
    assert (text + "*")[..|text|] == text;
  }

  /** A label without the marker is only trimmed (or replaced by the field's
      name when it is blank). */
  lemma {:induction false} UnmarkedLabel(text: string, name: string)
    requires Trim(text) == [] || Trim(text)[|Trim(text)| - 1] != '*'
    ensures FieldLabel(Some(text), name) == if AllSpace(text) then name else Trim(text)
  {
    TrimEmptyIffBlank(text);
    if AllSpace(text) {
      BlankLabel(text, name);
    } else {
      TrimmedLabel(text, name);
    }
  }

  lemma {:induction false} BlankLabel(text: string, name: string)
    requires AllSpace(text)
    ensures FieldLabel(Some(text), name) == name
  {
    BlankHasBlankTrimEnd(text);
    assert StripMarker(text) == text;
    TrimEmptyIffBlank(text);
  }

  lemma {:induction false} TrimmedLabel(text: string, name: string)
    requires Trim(text) != [] && Trim(text)[|Trim(text)| - 1] != '*'
    ensures FieldLabel(Some(text), name) == Trim(text)
  {
    TrimEndEndsLikeTrim(text);
    KeepsUnmarkedText(text);
  }

  lemma {:induction false} KeepsUnmarkedText(text: string)
    requires TrimEnd(text) == [] || TrimEnd(text)[|TrimEnd(text)| - 1] != '*'
    ensures StripMarker(text) == text
  {
  }

  /** Where `trim` leaves something, `trimEnd` ends in the same character. */
  lemma {:induction false} TrimEndEndsLikeTrim(text: string)
    requires Trim(text) != []
    ensures TrimEnd(text) != [] && TrimEnd(text)[|TrimEnd(text)| - 1] == Trim(text)[|Trim(text)| - 1]
  {
    TrimIsSuffixOfTrimEnd(text);
  }

  lemma {:induction false} BlankHasBlankTrimEnd(text: string)
    requires AllSpace(text)
    ensures TrimEnd(text) == []
  {
  }

  /** The registration form's label texts carry the marker: "Full Name *"
      is shown as "Full Name". */
  lemma MarkedLabelExample()
    ensures FieldLabel(Some("Full Name *"), "fullName") == "Full Name"
  {
    var text := "Full Name ";
    assert !IsSpace(text[0]);
    assert text + ("*" + "") == "Full Name *";
    MarkedLabel(text, "", "fullName");
    FullNameTrimmed();
  }

  lemma FullNameTrimmed()
    ensures Trim("Full Name ") == "Full Name"
  {
    TrimOfPadded("", "Full Name", " ");
    assert "" + ("Full Name" + " ") == "Full Name ";
  }

  /** A label that is only the marker gives way to the field's name. */
  lemma BareMarkerExample()
    ensures FieldLabel(Some("  *  "), "city") == "city"
  {
    MarkedLabel("  ", "  ", "city");
    assert "  " + ("*" + "  ") == "  *  ";
  }

  /** A label with no marker is kept as it is. */
  lemma PlainLabelExample()
    ensures FieldLabel(Some("Class"), "class") == "Class"
  {
    TrimOfPadded("", "Class", "");
    assert "" + ("Class" + "") == "Class";
    UnmarkedLabel("Class", "class");
  }
}
