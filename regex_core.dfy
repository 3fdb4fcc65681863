/** The pieces of Python's `re` semantics that both anchor-tag patterns share, read
    with `re.IGNORECASE` on a str pattern: `\b`, the literals `<a` and `href`, and the
    fixed stretch `href\s*=\s*["']` in which nothing can backtrack. */
module RegexCore {
  import opened Wrappers
  import opened Text

  /** `\w` for a str pattern: letters, digits and `_`. ASCII, Latin-1 and the Cyrillic
      block are covered; other alphabets are not word characters here. */
  predicate IsWordChar(c: char) {
    ('a' <= c <= 'z') || ('A' <= c <= 'Z') || ('0' <= c <= '9') || c == '_'
    || c == '\U{aa}' || c == '\U{b2}' || c == '\U{b3}' || c == '\U{b5}' || c == '\U{b9}' || c == '\U{ba}'
    || ('\U{bc}' <= c <= '\U{be}') || ('\U{c0}' <= c <= '\U{ff}' && c != '\U{d7}' && c != '\U{f7}')
    || ('\U{400}' <= c <= '\U{481}') || ('\U{48a}' <= c <= '\U{52f}')
  }

  /** `\b` at position `k`: a word character on exactly one side. */
  predicate WordBoundary(s: string, k: nat)
    requires k <= |s|
  {
    (0 < k && IsWordChar(s[k - 1])) != (k < |s| && IsWordChar(s[k]))
  }

  /** The literal `<a`, case-insensitively, at `i`. */
  predicate AnchorOpenAt(s: string, i: nat) {
    i + 2 <= |s| && s[i] == '<' && (s[i + 1] == 'a' || s[i + 1] == 'A')
  }

  /** The literal `href`, case-insensitively, at `h`. */
  predicate HrefAt(s: string, h: nat) {
    && h + 4 <= |s|
    && (s[h] == 'h' || s[h] == 'H') && (s[h + 1] == 'r' || s[h + 1] == 'R')
    && (s[h + 2] == 'e' || s[h + 2] == 'E') && (s[h + 3] == 'f' || s[h + 3] == 'F')
  }

  predicate IsQuote(c: char) {
    c == '"' || c == '\''
  }

  /** `href\s*=\s*["']` with `href` at `h`, `=` at `eq` and the opening quote at `q`. */
  predicate AssignAt(s: string, h: nat, eq: nat, q: nat) {
    && HrefAt(s, h) && h + 4 <= eq < q < |s|
    && SpacesBetween(s, h + 4, eq) && s[eq] == '='
    && SpacesBetween(s, eq + 1, q) && IsQuote(s[q])
  }

  /** The one way `\s*=\s*["']` can follow an `href` at `h`, if there is one. The
      greedy `\s*` cannot give anything back, since a whitespace character is neither
      `=` nor a quote. */
  function OpenQuote(s: string, h: nat): (r: Option<(nat, nat)>)
    requires HrefAt(s, h)
    ensures r.Some? ==> AssignAt(s, h, r.value.0, r.value.1)
    ensures forall eq: nat, q: nat :: AssignAt(s, h, eq, q) ==> r == Some((eq, q))
  {
    var eq := SkipSpaces(s, h + 4);
    if eq < |s| && s[eq] == '=' then
      var q := SkipSpaces(s, eq + 1);
      if q < |s| && IsQuote(s[q]) then Some((eq, q)) else None
    else
      None
  }

  /** After an `href` followed by `=`, the position right after the name is a word
      boundary, which is what the lookahead `\bhref\b` of the main pattern asks. */
  lemma BoundaryAfterHref(s: string, h: nat, eq: nat, q: nat)
    requires AssignAt(s, h, eq, q)
    ensures WordBoundary(s, h + 4)
  {
    assert s[h + 4] == '=' || IsSpace(s[h + 4]);
  }

  /** One backtracking path through a pattern: where `\s+` ends (`p`), where `href`
      starts (`h`), the `=` (`eq`), the opening quote (`q`), the closing quote (`c`)
      and the final `>` (`g`). */
  datatype Trace = Trace(p: nat, h: nat, eq: nat, q: nat, c: nat, g: nat)

  /** What `re.Match` reports: the span of the whole match and of the `url` group. */
  datatype Capture = Capture(start: nat, valueStart: nat, valueEnd: nat, end: nat)

  predicate WellPlaced(s: string, m: Capture) {
    m.start < m.valueStart <= m.valueEnd < m.end <= |s|
  }

  function CaptureOf(i: nat, t: Trace): Capture {
    Capture(i, t.q + 1, t.c, t.g + 1)
  }

  /** `match.group("url")`. */
  function Value(s: string, m: Capture): string
    requires WellPlaced(s, m)
  {
    s[m.valueStart..m.valueEnd]
  }
}
