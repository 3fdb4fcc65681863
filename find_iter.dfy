/** `pattern.finditer(text)` for the two anchor-tag patterns: matches are searched
    leftmost first, and after each match the search resumes where it ended, so the
    matches never overlap. */
module FindIter {
  import opened Wrappers
  import opened RegexCore
  import LinkPattern
  import HyperlinkPattern

  datatype Pattern =
    | LinkTag       // HTMLLinkExtractor._LINK_PATTERN
    | HyperlinkTag  // HYPERLINK_PATTERN

  /** `pattern.match(s, i)`, as the spans it reports. */
  function MatchAt(pat: Pattern, s: string, i: nat): (r: Option<Capture>)
    ensures r.Some? ==> r.value.start == i && WellPlaced(s, r.value)
  {
    match pat
    case LinkTag =>
      var t := LinkPattern.MatchAt(s, i);
      if t.Some? then Some(CaptureOf(i, t.value)) else None
    case HyperlinkTag =>
      var t := HyperlinkPattern.MatchAt(s, i);
      if t.Some? then Some(CaptureOf(i, t.value)) else None
  }

  /** `MatchAt` for one pattern and text, as a function of the start position. */
  function Matcher(pat: Pattern, s: string): nat -> Option<Capture> {
    (i: nat) => MatchAt(pat, s, i)
  }

  /** `ms` is what a `finditer` over a text of length `n` yields from `pos` on, when
      `found(j)` is the match starting at `j`: the first element is the match at the
      first position from `pos` where one starts, and the rest is what the search
      yields from where that match ends; with no match anywhere, nothing. */
  ghost predicate IsFindIter(found: nat -> Option<Capture>, n: nat, pos: nat, ms: seq<Capture>)
    decreases |ms|
  {
    if ms == [] then
      forall j: nat :: pos <= j < n ==> found(j).None?
    else
      && pos <= ms[0].start < n && found(ms[0].start) == Some(ms[0])
      && (forall j: nat :: pos <= j < ms[0].start ==> found(j).None?)
      && IsFindIter(found, n, ms[0].end, ms[1..])
  }

  /** The list of matches `pattern.finditer(s, pos)` yields. */
  function Scan(pat: Pattern, s: string, pos: nat): (ms: seq<Capture>)
    requires pos <= |s|
    ensures IsFindIter(Matcher(pat, s), |s|, pos, ms)
    decreases |s| - pos
  {
    if pos == |s| then
      []
    else
      match MatchAt(pat, s, pos)
      case None =>
        var ms := Scan(pat, s, pos + 1);
        NoMatchHere(Matcher(pat, s), |s|, pos, ms);
        ms
      case Some(m) =>
        var ms := Scan(pat, s, m.end);
        assert ([m] + ms)[1..] == ms;
        [m] + ms
  }

  /** A position where no match starts can be added in front of a search. */
  lemma {:induction false} NoMatchHere(found: nat -> Option<Capture>, n: nat, pos: nat, ms: seq<Capture>)
    requires found(pos).None? && IsFindIter(found, n, pos + 1, ms)
    ensures IsFindIter(found, n, pos, ms)
  {
  }

  /** The description determines the list: whatever satisfies it is the one list
      `finditer` yields, so `IsFindIter` is a complete account of its output. */
  lemma {:induction false} FindIterIsUnique(found: nat -> Option<Capture>, n: nat, pos: nat, a: seq<Capture>, b: seq<Capture>)
    requires IsFindIter(found, n, pos, a) && IsFindIter(found, n, pos, b)
    ensures a == b
    decreases |a|
  {
    if a != [] && b != [] {
      var i, j := a[0].start, b[0].start;
      assert found(i).Some? && found(j).Some?;
      assert i == j;
      FindIterIsUnique(found, n, a[0].end, a[1..], b[1..]);
      assert a == [a[0]] + a[1..] && b == [b[0]] + b[1..];
    }
  }

  /** Every element of the list is the match `found` reports at its start. */
  lemma {:induction false} EachIsFound(found: nat -> Option<Capture>, n: nat, pos: nat, ms: seq<Capture>)
    requires IsFindIter(found, n, pos, ms)
    ensures forall m :: m in ms ==> m.start < n && found(m.start) == Some(m)
    decreases |ms|
  {
    if ms != [] {
      EachIsFound(found, n, ms[0].end, ms[1..]);
      assert forall m :: m in ms ==> m == ms[0] || m in ms[1..];
    }
  }

  /** Each match of `_LINK_PATTERN` lies inside the text, and its value, the lazy
      `.*?` without `re.DOTALL`, never spans a line break. */
  lemma LinkValuesAreSingleLine(s: string, pos: nat)
    requires pos <= |s|
    ensures forall m :: m in Scan(LinkTag, s, pos) ==> WellPlaced(s, m) && '\n' !in Value(s, m)
  {
    EachIsFound(Matcher(LinkTag, s), |s|, pos, Scan(LinkTag, s, pos));
    forall m | m in Scan(LinkTag, s, pos) ensures WellPlaced(s, m) && '\n' !in Value(s, m) {
      var t := LinkPattern.MatchAt(s, m.start).value;
      assert LinkPattern.CloseAt(s, t.q, t.c, t.g);
    }
  }

  /** Each match of `HYPERLINK_PATTERN` lies inside the text, and its value,
      `[^"']*`, holds no quote character of either kind. */
  lemma HyperlinkValuesAreUnquoted(s: string, pos: nat)
    requires pos <= |s|
    ensures forall m :: m in Scan(HyperlinkTag, s, pos) ==>
              WellPlaced(s, m) && '"' !in Value(s, m) && '\'' !in Value(s, m)
  {
    EachIsFound(Matcher(HyperlinkTag, s), |s|, pos, Scan(HyperlinkTag, s, pos));
    forall m | m in Scan(HyperlinkTag, s, pos)
      ensures WellPlaced(s, m) && '"' !in Value(s, m) && '\'' !in Value(s, m)
    {
      var t := HyperlinkPattern.MatchAt(s, m.start).value;
      assert HyperlinkPattern.CloseAt(s, t.q, t.c, t.g);
    }
  }
}
