/** Concrete anchor tags on which the two patterns are compared. */
module PatternExamples {
  import opened Wrappers
  import opened Text
  import opened RegexCore
  import opened FindIter
  import LinkPattern
  import HyperlinkPattern

  /** `<a data-href="">`, an anchor whose only `href` is part of another name. */
  const DataHref: string := "<a data-href=\"\">"

  lemma DataHrefLink()
    ensures LinkPattern.MatchAt(DataHref, 0) == Some(Trace(3, 8, 12, 13, 14, 15))
  {
    DataHrefShape();
    DataHrefFound(15);
  }

  /** The facts about `<a data-href="">` that every step of the search uses. */
  lemma DataHrefShape()
    ensures |DataHref| == 16 && SkipSpaces(DataHref, 2) == 3 && FindChar(DataHref, 3, '>') == 15
    ensures LinkPattern.Head(DataHref, 0, 3)
  {
    var s := DataHref;
    assert s[0] == '<' && s[1] == 'a' && IsSpace(s[2]) && !IsSpace(s[3]);
    assert SkipSpaces(s, 3) == 3;
    FindCharIs(s, 3, '>', 15);
  }

  /** The `href` inside `data-href` gives a complete match. */
  lemma DataHrefAt8()
    requires LinkPattern.Head(DataHref, 0, 3) && FindChar(DataHref, 3, '>') == 15
    ensures LinkPattern.TryHref(DataHref, 0, 3, 8) == Some(Trace(3, 8, 12, 13, 14, 15))
  {
    var s := DataHref;
    assert HrefAt(s, 8) && WordBoundary(s, 8);
    DataHrefAssign();
    DataHrefClose();
  }

  lemma DataHrefAssign()
    ensures HrefAt(DataHref, 8) && OpenQuote(DataHref, 8) == Some((12, 13))
  {
    var s := DataHref;
    assert SkipSpaces(s, 12) == 12 && SkipSpaces(s, 13) == 13;
  }

  lemma DataHrefClose()
    ensures LinkPattern.Close(DataHref, 13) == Some((14, 15))
  {
    var s := DataHref;
    assert LinkPattern.CloseQuote(s, 14, '"') == 14;
    FindCharIs(s, 15, '>', 15);
  }

  /** Backing off from `k`, the search finds the `href` inside `data-href`. */
  lemma {:induction false} DataHrefFound(k: nat)
    requires 9 <= k <= 15
    requires LinkPattern.Head(DataHref, 0, 3) && FindChar(DataHref, 3, '>') == 15
    ensures LinkPattern.FindHref(DataHref, 0, 3, k) == Some(Trace(3, 8, 12, 13, 14, 15))
    decreases k
  {
    var s := DataHref;
    if k == 9 {
      DataHrefAt8();
    } else {
      assert !HrefAt(s, k - 1);
      DataHrefFound(k - 1);
    }
  }

  lemma DataHrefHyperlink()
    ensures HyperlinkPattern.MatchAt(DataHref, 0) == None
  {
    var s := DataHref;
    assert SkipSpaces(s, 2) == 3;
    assert FindChar(s, 3, '>') == 15;
    assert |s| == 16 && s[0] == '<' && s[1] == 'a' && IsSpace(s[2]);
    assert HyperlinkPattern.Head(s, 0, 3);
    assert forall k :: 4 <= k <= 16 ==> HyperlinkPattern.FindHrefAfterSpace(s, 0, 3, k) == None by {
      forall k | 4 <= k <= 16 ensures HyperlinkPattern.FindHrefAfterSpace(s, 0, 3, k) == None {
        NoSpaceAfter(k);
      }
    }
  }

  lemma {:induction false} NoSpaceAfter(k: nat)
    requires 4 <= k <= 16
    ensures HyperlinkPattern.FindHrefAfterSpace(DataHref, 0, 3, k) == None
    decreases 16 - k
  {
    var s := DataHref;
    assert SkipSpaces(s, 2) == 3;
    assert FindChar(s, 3, '>') == 15;
    if k <= 15 {
      assert !IsSpace(s[k - 1]);
      NoSpaceAfter(k + 1);
    }
  }

  /** On `<a data-href="">`, `_LINK_PATTERN` takes the `href` inside `data-href` (a
      `-` is not a word character, so `\bhref` holds there) and yields one link with an
      empty value, while `HYPERLINK_PATTERN`, which wants whitespace before `href`,
      yields none. */
  lemma DataHrefContrast()
    ensures Scan(LinkTag, DataHref, 0) == [Capture(0, 14, 14, 16)]
    ensures Value(DataHref, Capture(0, 14, 14, 16)) == ""
    ensures Scan(HyperlinkTag, DataHref, 0) == []
  {
    DataHrefLink();
    assert MatchAt(LinkTag, DataHref, 0) == Some(Capture(0, 14, 14, 16));
    DataHrefHyperlinkScan();
  }

  lemma DataHrefHyperlinkScan()
    ensures Scan(HyperlinkTag, DataHref, 0) == []
  {
    var s := DataHref;
    forall j: nat | 0 <= j < |s| ensures Matcher(HyperlinkTag, s)(j).None? {
      if j == 0 {
        DataHrefHyperlink();
      } else {
        NoAnchorAt(j);
      }
    }
    FindIterIsUnique(Matcher(HyperlinkTag, s), |s|, 0, Scan(HyperlinkTag, s, 0), []);
  }

  /** Only the first character of `<a data-href="">` is a `<`. */
  lemma NoAnchorAt(j: nat)
    requires 1 <= j < |DataHref|
    ensures HyperlinkPattern.MatchAt(DataHref, j) == None
  {
    assert DataHref[j] != '<';
  }
}
