/** The anchor-tag pattern of `HTMLLinkExtractor._LINK_PATTERN`, compiled with
    `re.IGNORECASE` and without `re.DOTALL`:

      <a\s+(?=[^>]*\bhref\b)[^>]*\bhref\s*=\s*(['"])(?P<url>.*?)\1[^>]*>

    `Parse` states, position by position, every way the pattern can match at a start
    index; `Preferred` picks the one Python's backtracking reaches first (greedy `\s+`
    and `[^>]*` longest first, lazy `.*?` shortest first). `MatchAt` is a scanner
    that does no backtracking and is proved to return exactly that match. */
module LinkPattern {
  import opened Wrappers
  import opened Text
  import opened RegexCore

  /** `<a\s+` from `i`, the whitespace run ending at `p`. */
  predicate Head(s: string, i: nat, p: nat) {
    AnchorOpenAt(s, i) && i + 2 < p <= |s| && SpacesBetween(s, i + 2, p)
  }

  /** `[^>]*\bhref` from `p`, with `href` at `h`. */
  predicate HrefFrom(s: string, p: nat, h: nat) {
    p <= h && HrefAt(s, h) && AvoidsBetween(s, p, h, '>') && WordBoundary(s, h)
  }

  /** The lookahead `(?=[^>]*\bhref\b)` at `p`. */
  ghost predicate LookaheadAt(s: string, p: nat) {
    exists w: nat :: HrefFrom(s, p, w) && WordBoundary(s, w + 4)
  }

  /** `(?P<url>.*?)\1[^>]*>` after the opening quote at `q`: the value runs to the
      closing quote at `c` without crossing a newline, and `g` is the next `>`. */
  predicate CloseAt(s: string, q: nat, c: nat, g: nat) {
    && q < c < g < |s|
    && AvoidsBetween(s, q + 1, c, '\n') && s[c] == s[q]
    && AvoidsBetween(s, c + 1, g, '>') && s[g] == '>'
  }

  /** A complete way for the pattern to match at `i`. */
  ghost predicate Parse(s: string, i: nat, t: Trace) {
    && Head(s, i, t.p) && LookaheadAt(s, t.p) && HrefFrom(s, t.p, t.h)
    && AssignAt(s, t.h, t.eq, t.q) && CloseAt(s, t.q, t.c, t.g)
  }

  /** The match Python's backtracking finds first: the longest `\s+`, then the
      rightmost `href` (greedy `[^>]*`), then the nearest closing quote (lazy `.*?`). */
  ghost predicate Preferred(s: string, i: nat, t: Trace) {
    && Parse(s, i, t)
    && forall u :: Parse(s, i, u) ==>
         && u.p <= t.p
         && (u.p == t.p ==> u.h <= t.h)
         && (u.p == t.p && u.h == t.h ==> t.c <= u.c)
  }

  /** The first quote equal to `s[q]` after `q`, stopping at a newline; then the first
      `>` after it. Once the nearest closing quote has no `>` after it, no later one
      has either, so the lazy `.*?` never needs to look further. */
  function Close(s: string, q: nat): (r: Option<(nat, nat)>)
    requires q < |s|
    ensures r.Some? ==> CloseAt(s, q, r.value.0, r.value.1)
    ensures r.Some? ==> forall c: nat, g: nat :: CloseAt(s, q, c, g) ==> r.value.0 <= c
    ensures r.None? ==> forall c: nat, g: nat :: !CloseAt(s, q, c, g)
  {
    var c := CloseQuote(s, q + 1, s[q]);
    if c < |s| && s[c] == s[q] then
      var g := FindChar(s, c + 1, '>');
      if g < |s| then Some((c, g)) else None
    else
      None
  }

  /** The first index at or after `k` holding `quote` or a newline. */
  function CloseQuote(s: string, k: nat, quote: char): (r: nat)
    requires k <= |s|
    ensures k <= r <= |s|
    ensures forall j :: k <= j < r ==> s[j] != quote && s[j] != '\n'
    ensures r < |s| ==> s[r] == quote || s[r] == '\n'
    decreases |s| - k
  {
    if k < |s| && s[k] != quote && s[k] != '\n' then CloseQuote(s, k + 1, quote) else k
  }

  /** `href` at `h` and everything after it, for a match whose `\s+` ends at `p`. */
  function TryHref(s: string, i: nat, p: nat, h: nat): (r: Option<Trace>)
    requires Head(s, i, p) && p <= h <= |s| && AvoidsBetween(s, p, h, '>')
    ensures r.Some? ==> Parse(s, i, r.value) && r.value.p == p && r.value.h == h
    ensures r.Some? ==> forall u :: Parse(s, i, u) && u.p == p && u.h == h ==> r.value.c <= u.c
    ensures r.None? ==> forall u :: Parse(s, i, u) && u.p == p ==> u.h != h
  {
    if HrefAt(s, h) && WordBoundary(s, h) then
      match OpenQuote(s, h)
      case None => None
      case Some((eq, q)) =>
        match Close(s, q)
        case None => None
        case Some((c, g)) =>
          LookaheadIsRedundant(s, i, p, h, eq, q);
          Some(Trace(p, h, eq, q, c, g))
    else
      None
  }

  /** The rest of the pattern after the lookahead: tries `href` at `k - 1`, `k - 2`,
      ..., `p`, rightmost first, as the greedy `[^>]*` backs off. */
  function FindHref(s: string, i: nat, p: nat, k: nat): (r: Option<Trace>)
    requires Head(s, i, p) && p <= k <= FindChar(s, p, '>')
    ensures r.Some? ==> Parse(s, i, r.value) && r.value.p == p && r.value.h < k
    ensures r.Some? ==> forall u :: Parse(s, i, u) && u.p == p && u.h < k ==>
                          u.h <= r.value.h && (u.h == r.value.h ==> r.value.c <= u.c)
    ensures r.None? ==> forall u :: Parse(s, i, u) && u.p == p ==> k <= u.h
    decreases k
  {
    if k == p then None
    else
      var here := TryHref(s, i, p, k - 1);
      if here.Some? then here else FindHref(s, i, p, k - 1)
  }

  /** Backing off the greedy `\s+` never helps: a match that ends `\s+` early is also
      a match with the longest run, with the same `href`, value and end. */
  lemma LongestSpaceRun(s: string, i: nat, u: Trace)
    requires Parse(s, i, u)
    ensures i + 2 <= |s| && u.p <= SkipSpaces(s, i + 2)
    ensures Parse(s, i, u.(p := SkipSpaces(s, i + 2)))
  {
    var p := SkipSpaces(s, i + 2);
    var w: nat :| HrefFrom(s, u.p, w) && WordBoundary(s, w + 4);
    assert HrefFrom(s, p, w);
  }

  /** `_LINK_PATTERN.match(s, i)`: the preferred match at `i`, or none when no way of
      matching exists there. */
  function MatchAt(s: string, i: nat): (r: Option<Trace>)
    ensures r.Some? ==> Preferred(s, i, r.value)
    ensures r.None? ==> forall u :: !Parse(s, i, u)
  {
    if !AnchorOpenAt(s, i) then None
    else
      var p := SkipSpaces(s, i + 2);
      if p == i + 2 then None
      else
        AllParsesUseLongestRun(s, i, p);
        FindHref(s, i, p, FindChar(s, p, '>'))
  }

  lemma AllParsesUseLongestRun(s: string, i: nat, p: nat)
    requires i + 2 <= |s| && p == SkipSpaces(s, i + 2)
    ensures forall u :: Parse(s, i, u) ==> u.p <= p && Parse(s, i, u.(p := p)) && u.h < FindChar(s, p, '>')
  {
    forall u | Parse(s, i, u) ensures u.p <= p && Parse(s, i, u.(p := p)) && u.h < FindChar(s, p, '>') {
      LongestSpaceRun(s, i, u);
    }
  }

  /** The lookahead never rejects a match the rest of the pattern accepts: the `href`
      that the main part finds satisfies it. */
  lemma LookaheadIsRedundant(s: string, i: nat, p: nat, h: nat, eq: nat, q: nat)
    requires Head(s, i, p) && HrefFrom(s, p, h) && AssignAt(s, h, eq, q)
    ensures LookaheadAt(s, p)
  {
    BoundaryAfterHref(s, h, eq, q);
  }
}
