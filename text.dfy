/** The parts of Python's `str` that the link extractor relies on: `isspace`, `strip`,
    `rstrip("/")`, `lower`, `startswith` and `endswith`. Strings are sequences of
    Unicode scalar values, as Python's `str` is. */
module Text {

  /** `str.isspace()`: exactly the characters that `\s` matches in a str pattern and
      that `str.strip()` removes. */
  predicate IsSpace(c: char) {
    ('\t' <= c <= '\r') || ('\U{1c}' <= c <= ' ') || c == '\U{85}' || c == '\U{a0}'
    || c == '\U{1680}' || ('\U{2000}' <= c <= '\U{200a}') || c == '\U{2028}' || c == '\U{2029}'
    || c == '\U{202f}' || c == '\U{205f}' || c == '\U{3000}'
  }

  /** Every character of `s[a..b]` is whitespace. */
  predicate SpacesBetween(s: string, a: nat, b: nat)
    requires a <= b <= |s|
  {
    forall k :: a <= k < b ==> IsSpace(s[k])
  }

  predicate StartsWith(s: string, prefix: string) {
    |prefix| <= |s| && s[..|prefix|] == prefix
  }

  predicate EndsWith(s: string, suffix: string) {
    |suffix| <= |s| && s[|s| - |suffix|..] == suffix
  }

  /** The end of the run of whitespace that starts at `i`: where `\s*` stops. */
  function SkipSpaces(s: string, i: nat): (r: nat)
    requires i <= |s|
    ensures i <= r <= |s| && SpacesBetween(s, i, r)
    ensures r < |s| ==> !IsSpace(s[r])
    decreases |s| - i
  {
    if i < |s| && IsSpace(s[i]) then SkipSpaces(s, i + 1) else i
  }

  /** The start of the run of whitespace that ends at `j`, not going below `lo`. */
  function SkipSpacesBack(s: string, lo: nat, j: nat): (r: nat)
    requires lo <= j <= |s|
    ensures lo <= r <= j && SpacesBetween(s, r, j)
    ensures lo < r ==> !IsSpace(s[r - 1])
    decreases j
  {
    if lo < j && IsSpace(s[j - 1]) then SkipSpacesBack(s, lo, j - 1) else j
  }

  /** No character of `s[a..b]` is `c`. */
  predicate AvoidsBetween(s: string, a: nat, b: nat, c: char)
    requires a <= b <= |s|
  {
    forall k :: a <= k < b ==> s[k] != c
  }

  /** `str.find(c, i)`, answering `|s|` rather than -1 when `c` does not occur. */
  function FindChar(s: string, i: nat, c: char): (r: nat)
    requires i <= |s|
    ensures i <= r <= |s| && AvoidsBetween(s, i, r, c)
    ensures r < |s| ==> s[r] == c
    decreases |s| - i
  {
    if i < |s| && s[i] != c then FindChar(s, i + 1, c) else i
  }

  /** `FindChar` is characterised by its contract: the first `c` at or after `i`. */
  lemma {:induction false} FindCharIs(s: string, i: nat, c: char, k: nat)
    requires i <= k <= |s| && AvoidsBetween(s, i, k, c) && (k < |s| ==> s[k] == c)
    ensures FindChar(s, i, c) == k
    decreases k - i
  {
    if i < k {
      FindCharIs(s, i + 1, c, k);
    }
  }

  /** `r` is `s` with its surrounding whitespace removed, and only that. */
  ghost predicate IsStripOf(r: string, s: string) {
    exists a: nat, b: nat ::
      && a <= b <= |s| && r == s[a..b]
      && SpacesBetween(s, 0, a) && SpacesBetween(s, b, |s|)
      && (a < b ==> !IsSpace(s[a]) && !IsSpace(s[b - 1]))
  }

  /** `str.strip()`. */
  function Strip(s: string): (r: string)
    ensures IsStripOf(r, s)
    ensures r == [] || (!IsSpace(r[0]) && !IsSpace(r[|r| - 1]))
  {
    var a := SkipSpaces(s, 0);
    var b := SkipSpacesBack(s, a, |s|);
    StripBounds(s, a, b);
    s[a..b]
  }

  lemma StripBounds(s: string, a: nat, b: nat)
    requires a == SkipSpaces(s, 0) && b == SkipSpacesBack(s, a, |s|)
    ensures IsStripOf(s[a..b], s)
    ensures a < b ==> !IsSpace(s[a..b][0]) && !IsSpace(s[a..b][b - a - 1])
  {
    assert a < b ==> a < |s|;
  }

  /** Stripping a stripped string changes nothing. */
  lemma StripIdempotent(s: string)
    ensures Strip(Strip(s)) == Strip(s)
  {
  }

  /** `str.rstrip("/")`: drops every trailing slash. */
  function RStripSlashes(s: string): (r: string)
    ensures |r| <= |s| && r == s[..|r|]
    ensures forall k :: |r| <= k < |s| ==> s[k] == '/'
    ensures r == [] || r[|r| - 1] != '/'
  {
    if s != [] && s[|s| - 1] == '/' then RStripSlashes(s[..|s| - 1]) else s
  }

  /** `str.lower()` on one character. Upper-case ASCII, Latin-1 and basic Cyrillic
      letters are mapped to their lower-case forms; every other character is kept. */
  function LowerChar(c: char): char {
    if 'A' <= c <= 'Z' || ('\U{c0}' <= c <= '\U{de}' && c != '\U{d7}') || ('\U{410}' <= c <= '\U{42f}') then
      (c as int + 32) as char
    else if '\U{400}' <= c <= '\U{40f}' then
      (c as int + 80) as char
    else
      c
  }

  /** `str.lower()`, character by character. */
  function Lower(s: string): (r: string)
    ensures |r| == |s|
    ensures forall k :: 0 <= k < |s| ==> r[k] == LowerChar(s[k])
  {
    seq(|s|, k requires 0 <= k < |s| => LowerChar(s[k]))
  }

  /** Lower-casing a lower-cased string changes nothing. */
  lemma LowerIdempotent(s: string)
    ensures Lower(Lower(s)) == Lower(s)
  {
    var t := Lower(s);
    assert forall k :: 0 <= k < |s| ==> LowerChar(t[k]) == t[k];
  }
}
