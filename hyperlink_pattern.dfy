/** The stricter anchor-tag pattern `HYPERLINK_PATTERN` of config.py:

      <a\s+(?:[^>]*?\s)?\bhref\s*=\s*(?P<border>["'])(?P<url>[^"']*)(?P=border)[^>]*?>

    The flags it is compiled with are not part of config.py; `re.IGNORECASE` is taken,
    as the upper-case `HREF` test case needs it. `re.DOTALL` would change nothing,
    since the pattern has no `.`. Unlike `_LINK_PATTERN`, an `href` counts only
    right after the `\s+` run or right after another whitespace character, and the
    value holds neither quote character. */
module HyperlinkPattern {
  import opened Wrappers
  import opened Text
  import opened RegexCore

  /** `<a\s+` from `i`, the whitespace run ending at `p`. */
  predicate Head(s: string, i: nat, p: nat) {
    AnchorOpenAt(s, i) && i + 2 < p <= |s| && SpacesBetween(s, i + 2, p)
  }

  /** `(?:[^>]*?\s)?\bhref` from `p`, with `href` at `h`: either the optional group is
      skipped (`h == p`) or it ends with a whitespace character just before `h`. */
  predicate HrefFrom(s: string, p: nat, h: nat) {
    && p <= h && HrefAt(s, h) && WordBoundary(s, h)
    && (h == p || (AvoidsBetween(s, p, h - 1, '>') && IsSpace(s[h - 1])))
  }

  /** No quote character of either kind in `s[a..b]`. */
  predicate NoQuotesBetween(s: string, a: nat, b: nat)
    requires a <= b <= |s|
  {
    forall k :: a <= k < b ==> !IsQuote(s[k])
  }

  /** `(?P<url>[^"']*)(?P=border)[^>]*?>` after the opening quote at `q`. */
  predicate CloseAt(s: string, q: nat, c: nat, g: nat) {
    && q < c < g < |s|
    && NoQuotesBetween(s, q + 1, c) && s[c] == s[q]
    && AvoidsBetween(s, c + 1, g, '>') && s[g] == '>'
  }

  /** A complete way for the pattern to match at `i`. */
  predicate Parse(s: string, i: nat, t: Trace) {
    && Head(s, i, t.p) && HrefFrom(s, t.p, t.h)
    && AssignAt(s, t.h, t.eq, t.q) && CloseAt(s, t.q, t.c, t.g)
  }

  /** With `\s+` ending at `p`, the `href` at `h` is tried no later than the one at
      `h2`: the greedy `?` tries the group before skipping it, and the lazy `[^>]*?`
      inside it tries shorter spans first. */
  predicate TriedNoLater(p: nat, h: nat, h2: nat) {
    (h == p ==> h2 == p) && (h != p && h2 != p ==> h <= h2)
  }

  /** The match Python's backtracking finds first. */
  ghost predicate Preferred(s: string, i: nat, t: Trace) {
    && Parse(s, i, t)
    && forall u :: Parse(s, i, u) ==> u.p <= t.p && (u.p == t.p ==> TriedNoLater(t.p, t.h, u.h))
  }

  /** The first quote character of either kind at or after `k`. */
  function FindQuote(s: string, k: nat): (r: nat)
    requires k <= |s|
    ensures k <= r <= |s| && NoQuotesBetween(s, k, r)
    ensures r < |s| ==> IsQuote(s[r])
    decreases |s| - k
  {
    if k < |s| && !IsQuote(s[k]) then FindQuote(s, k + 1) else k
  }

  /** The value runs to the first quote of either kind, which must be the opening one;
      then the first `>`. Nothing here can backtrack. */
  function Close(s: string, q: nat): (r: Option<(nat, nat)>)
    requires q < |s| && IsQuote(s[q])
    ensures r.Some? ==> CloseAt(s, q, r.value.0, r.value.1)
    ensures r.None? ==> forall c: nat, g: nat :: !CloseAt(s, q, c, g)
  {
    var c := FindQuote(s, q + 1);
    if c < |s| && s[c] == s[q] then
      var g := FindChar(s, c + 1, '>');
      if g < |s| then Some((c, g)) else None
    else
      None
  }

  /** `href` at `h` and everything after it, for a match whose `\s+` ends at `p`. */
  function TryHref(s: string, i: nat, p: nat, h: nat): (r: Option<Trace>)
    requires Head(s, i, p) && p <= h <= |s|
    requires h == p || (AvoidsBetween(s, p, h - 1, '>') && IsSpace(s[h - 1]))
    ensures r.Some? ==> Parse(s, i, r.value) && r.value.p == p && r.value.h == h
    ensures r.None? ==> forall u :: Parse(s, i, u) && u.p == p ==> u.h != h
  {
    if HrefAt(s, h) && WordBoundary(s, h) then
      match OpenQuote(s, h)
      case None => None
      case Some((eq, q)) =>
        match Close(s, q)
        case None => None
        case Some((c, g)) => Some(Trace(p, h, eq, q, c, g))
    else
      None
  }

  /** The optional group taken: tries `href` right after a whitespace character at
      `k - 1`, then at `k`, `k + 1`, ..., leftmost first, as the lazy `[^>]*?` grows. */
  function FindHrefAfterSpace(s: string, i: nat, p: nat, k: nat): (r: Option<Trace>)
    requires Head(s, i, p) && p < k <= FindChar(s, p, '>') + 1
    ensures r.Some? ==> Parse(s, i, r.value) && r.value.p == p && k <= r.value.h
    ensures r.Some? ==> forall u :: Parse(s, i, u) && u.p == p && k <= u.h ==> r.value.h <= u.h
    ensures r.None? ==> forall u :: Parse(s, i, u) && u.p == p ==> u.h < k
    decreases FindChar(s, p, '>') + 1 - k
  {
    var limit := FindChar(s, p, '>');
    if limit < k then
      None
    else
      var here := if IsSpace(s[k - 1]) then TryHref(s, i, p, k) else None;
      if here.Some? then here else FindHrefAfterSpace(s, i, p, k + 1)
  }

  /** Backing off the greedy `\s+` never helps: a match that ends `\s+` early is also
      a match with the longest run, with the same `href`, value and end. */
  lemma LongestSpaceRun(s: string, i: nat, u: Trace)
    requires Parse(s, i, u)
    ensures i + 2 <= |s| && u.p <= SkipSpaces(s, i + 2)
    ensures Parse(s, i, u.(p := SkipSpaces(s, i + 2)))
  {
  }

  lemma AllParsesUseLongestRun(s: string, i: nat, p: nat)
    requires i + 2 <= |s| && p == SkipSpaces(s, i + 2)
    ensures forall u :: Parse(s, i, u) ==> u.p <= p && Parse(s, i, u.(p := p))
  {
    forall u | Parse(s, i, u) ensures u.p <= p && Parse(s, i, u.(p := p)) {
      LongestSpaceRun(s, i, u);
    }
  }

  /** `HYPERLINK_PATTERN.match(s, i)`: the preferred match at `i`, or none when no way
      of matching exists there. */
  function MatchAt(s: string, i: nat): (r: Option<Trace>)
    ensures r.Some? ==> Preferred(s, i, r.value)
    ensures r.None? ==> forall u :: !Parse(s, i, u)
  {
    if !AnchorOpenAt(s, i) then None
    else
      var p := SkipSpaces(s, i + 2);
      if p == i + 2 then None
      else
        AllParsesUseLongestRun(s, i, p);
        var grouped := FindHrefAfterSpace(s, i, p, p + 1);
        if grouped.Some? then grouped else TryHref(s, i, p, p)
  }
}
