# Hyperlink extraction and analysis, modelled in Dafny

This project models the core of a small Python tool that pulls the links out of an
HTML page with a regular expression and analyses each one against the page's base
url. It covers two classes of `main.py`:

- `HTMLLinkExtractor` finds every `<a ... href="...">` with `_LINK_PATTERN`. It
  strips each `href` value and wraps it into a `Hyperlink` read against its own
  base, which has had its trailing slashes removed. With `unique`, each url is
  kept once.
- `Hyperlink` stores the stripped url and base. It answers `is_absolute`,
  `absolute` (the url joined onto the base), `scheme`, `domain`, `path`,
  `is_internal` and `info`.

The stricter pattern `HYPERLINK_PATTERN` of `config.py` is modelled beside
`_LINK_PATTERN`. A concrete anchor shows the two patterns disagree.

Everything in the source is pure, so the model is written with datatypes,
functions and lemmas:

- `RegexCore`, `LinkPattern`, `HyperlinkPattern`: each regular expression is
  given two ways.
  - `Parse` says, position by position, every way the pattern can match at an
    index.
  - `Preferred` picks the match that Python's backtracking reaches first.
  - `MatchAt` is a scanner that does no backtracking. It is proved to return the
    preferred match, or nothing exactly when no match exists.
- `FindIter`: `finditer` as a recursive search. `IsFindIter` is a complete
  description of its output: the list satisfying it is unique, and `Scan`
  produces it.
- `UrlSplit`: `urlsplit` as Python 3.12 does it.
  - First the url is sanitised: leading C0 control characters and spaces are
    dropped, then every tab, CR and LF is removed.
  - Then come the scheme (section 3.1 of RFC 3986), the authority after `//`
    (section 3.2), the fragment, the query and the path (section 3.3).
  - Recomposing a split url (section 5.3) and splitting it again gives it back.
- `UrlJoin`: `urljoin` as reference resolution per section 5.2.2 of RFC 3986
  (non-strict).
  - Paths are merged per section 5.2.3. Dot segments are removed per section
    5.2.4.
  - Python's two shortcuts are kept: an empty base gives the reference, and an
    empty reference gives the base unchanged.
  - As in `urljoin`, a reference with a host of its own (`//host/...`) is taken as
    written, an empty host (`///x`) gives way to the base's, and a reference with an
    empty path keeps the base's query unless it brings a non-empty one.
  - As `urlunsplit` does, an empty query or fragment is written without its `?` or
    `#`, so `href="#"` resolves to the base itself.
- `Hyperlinks`, `LinkExtractor`: the two classes.
- `HyperlinkExamples`, `PatternExamples`: concrete inputs.

## Model

| member | source | states |
|---|---|---|
| LinkPattern.MatchAt | main.py:141 | `_LINK_PATTERN.match` at an index: the match backtracking prefers (longest `\s+`, rightmost `href` for the greedy `[^>]*`, nearest closing quote for the lazy `.*?`), or none exactly when no parse exists |
| LinkPattern.FindHref | main.py:141 | trying `href` positions from the right gives the rightmost parse and its nearest close, or proves no parse exists at this run |
| LinkPattern.Close | main.py:141 | the value ends at the nearest matching quote on the same line that has a `>` after it; no other close exists when none is found |
| LinkPattern.AllParsesUseLongestRun | main.py:141 | backing off the greedy `\s+` never yields a match the longest run does not also yield |
| LinkPattern.LookaheadIsRedundant | main.py:141 | the lookahead `(?=[^>]*\bhref\b)` never rejects a parse the rest of the pattern accepts |
| HyperlinkPattern.MatchAt | config.py:11 | `HYPERLINK_PATTERN.match` at an index: the preferred match (optional group tried first, shortest lazy span), or none exactly when no parse exists |
| HyperlinkPattern.FindHrefAfterSpace | config.py:11 | with the optional group taken, the leftmost `href` after a whitespace character is found, or none exists |
| HyperlinkPattern.Close | config.py:11 | the value `[^"']*` runs to the first quote, which must be the opening one, then to the first `>`; otherwise no close exists |
| FindIter.Scan | main.py:209 | `finditer` from a position: leftmost matches, each search resuming at the end of the previous match, exactly as `IsFindIter` describes |
| FindIter.FindIterIsUnique | main.py:209 | at most one list satisfies `IsFindIter`, so it determines `finditer`'s output |
| FindIter.EachIsFound | main.py:209 | every listed match is the match the pattern reports at its start |
| FindIter.LinkValuesAreSingleLine | main.py:141 | every `_LINK_PATTERN` value lies inside the page and holds no newline (no `re.DOTALL`) |
| FindIter.HyperlinkValuesAreUnquoted | config.py:11 | every `HYPERLINK_PATTERN` value lies inside the page and holds no quote of either kind |
| PatternExamples.DataHrefContrast | main.py:141 | on `<a data-href="">`, `_LINK_PATTERN` yields one match with an empty value, while `HYPERLINK_PATTERN` yields none |
| PatternExamples.DataHrefLink | main.py:141 | the exact match `_LINK_PATTERN` makes on `<a data-href="">` |
| PatternExamples.DataHrefHyperlink | config.py:11 | `HYPERLINK_PATTERN` does not match `<a data-href="">`, which has no whitespace before `href` |
| Text.Strip | main.py:20 | `str.strip`: the result is the input less leading and trailing whitespace, and neither of its ends is whitespace |
| Text.StripIdempotent | main.py:211 | stripping an already stripped url changes nothing |
| Text.RStripSlashes | main.py:144 | `rstrip("/")`: a prefix of the input, followed only by slashes, that does not end with a slash |
| UrlSplit.Split | main.py:39-45 | `urlparse`: the url is sanitised, its scheme is cut at the first `:` when valid and lower-cased, and the rest is split into authority, path, query and fragment; `SplitRecompose` and `SplitIsWellFormed` state that this split is the inverse of recomposition |
| UrlSplit.Sanitize | main.py:45 | the string `urlsplit` actually parses: the input after its leading C0 controls and spaces, with every tab, CR and LF deleted; so it is free of those and does not start with a control or a space |
| UrlSplit.RemoveUnsafeConcat | main.py:45 | deleting tab, CR and LF acts on each part of a concatenation separately; with `RemoveUnsafe`'s contract (the kept characters are exactly those of the input that are not tab, CR or LF) this determines the deletion |
| UrlSplit.RemoveUnsafeKeepsClean | main.py:45 | removing tab, CR and LF changes a string exactly when it holds one of them |
| UrlSplit.SchemeEnd | main.py:45 | the scheme ends at the first `:` exactly when what precedes it is a valid scheme |
| UrlSplit.SplitAuthority | main.py:45 | the authority follows `//` and runs to the first `/`, `?` or `#`; without `//` there is none |
| UrlSplit.SplitFragment | main.py:45 | the fragment follows the first `#`; what precedes it holds none |
| UrlSplit.SplitQuery | main.py:45 | the query follows the first `?` of what precedes the fragment |
| UrlSplit.SplitRecompose | main.py:45 | splitting a recomposed well-formed url gives back its five parts |
| UrlSplit.SplitIsWellFormed | main.py:39 | every split is well formed (lower-case scheme, delimiter-free parts), so recomposing and splitting it again returns it |
| UrlJoin.RemoveDots | main.py:75 | `remove_dot_segments`, the loop of section 5.2.4 of RFC 3986: a `..` segment cancels the plain segment before it and a `.` segment is dropped (`DotDotCancels`, `DotVanishes`), leaving a dot-free path (`RemoveDotsIsDotFree`) |
| UrlJoin.RemoveDotsFromPrefix | main.py:75 | a leading part of the path without dot segments is copied to the output unchanged when a new segment follows it |
| UrlJoin.DotDotCancels | main.py:75 | `x/seg/..y` reads as `xy` (as `x/` when nothing follows) for a plain segment `seg` and a dot-free `x` |
| UrlJoin.DotVanishes | main.py:75 | `x/.y` reads as `xy` (as `x/` when nothing follows) for a dot-free `x` |
| UrlJoin.RemoveDotsIsDotFree | main.py:75 | `remove_dot_segments` leaves no `.` or `..` segment, changes a path exactly when the path has one, and is idempotent |
| UrlJoin.RemoveDotsKeeps | main.py:75 | removing dot segments keeps a leading slash and adds no new character |
| UrlJoin.Directory | main.py:75 | the base's directory for merging is its path up to and including its last slash |
| UrlJoin.ResolveRelative | main.py:75 | a reference without scheme or authority keeps the base's scheme and authority and its own fragment; its path is the base's when its own is empty, its own with dot segments removed when it starts with `/`, and the merge onto the base's directory with dot segments removed otherwise |
| UrlJoin.Join | main.py:75 | `urljoin`: an empty base gives the reference, an empty reference the base, and otherwise the resolved reference as `urlunsplit` writes it; its contract is stated by `JoinSplitsAsResolved`, `JoinKeepsScheme` and `JoinEmptyMarker` |
| UrlJoin.Written | main.py:75 | `urlunsplit` leaves out an empty query or fragment and keeps every other component |
| UrlJoin.ResolveNetworkPath | main.py:75 | a reference with a non-empty host of its own keeps only the base's scheme; its host, path (dot segments included), query and fragment are taken as written |
| UrlJoin.ResolveEmptyHost | main.py:75 | a reference with an empty host resolves as if it had none, so it gets the base's authority |
| UrlJoin.ResolveWellFormed | main.py:75 | resolving a well-formed reference against a well-formed base with an authority gives a well-formed url |
| UrlJoin.JoinSplitsAsResolved | main.py:75 | what `urljoin` returns, split again, is the resolved reference without an empty query or fragment |
| UrlJoin.JoinEmptyMarker | main.py:75 | a reference that is only `#` or `?` gives the base without its fragment or an empty query, so a base written as `urlunsplit` writes it, without a fragment, comes back unchanged |
| UrlJoin.JoinKeepsScheme | main.py:75 | a joined scheme-less reference is never empty, has the base's scheme, and has the base's authority unless it brings a non-empty one of its own |
| Hyperlinks.NewHyperlink | main.py:19-21 | the stored url is the stripped url; the base is stored, stripped, exactly when it is present and not empty |
| Hyperlinks.IsAbsolute | main.py:41-45 | `is_absolute`: the url has a scheme; `AbsoluteHasScheme` and `AbsoluteLinkParts` state what follows from it |
| Hyperlinks.Absolute | main.py:61-75 | `absolute`: the url when it has a scheme, nothing without a base, the url joined onto the base otherwise; its contract is stated by `AbsoluteHasScheme` |
| Hyperlinks.AbsoluteHasScheme | main.py:41-75 | `absolute` is missing exactly when the url has no scheme and there is no base; a url with a scheme is its own absolute url; against a base with scheme and authority the absolute url has a scheme |
| Hyperlinks.Scheme | main.py:77-84 | `scheme` is missing when `absolute` is empty, and otherwise the scheme `urlparse` finds in `absolute`, empty or a valid lower-case scheme |
| Hyperlinks.Domain | main.py:86-95 | `domain` is missing when `absolute` is empty; otherwise it is the lower-cased netloc of `absolute`, missing when that netloc is empty, and so non-empty and lower-case |
| Hyperlinks.Path | main.py:97-104 | `path` is missing when `absolute` is empty; otherwise it is the path `urlparse` finds in `absolute`, missing when that path is empty, and holds no `?` or `#` |
| Hyperlinks.AbsoluteLinkParts | main.py:77-104 | a link whose url has a scheme reports that url's lower-cased scheme, no domain when it has no authority, its lower-cased authority otherwise, a path exactly when its path is not empty, and `/` for the root path |
| Hyperlinks.RelativeLinkKeepsBaseHost | main.py:61-95 | a relative link without its own authority gets the base's scheme and the base's domain |
| Hyperlinks.NetworkPathTakesItsOwnHost | main.py:47-104 | a `//host` link gets the base's scheme, its own host as domain and its own path as written, and is still internal; with an empty host it gets the base's domain |
| Hyperlinks.IsInternal | main.py:47-59 | `is_internal` as written: nothing without a base, true without a scheme, otherwise `_is_same_domain` of the link's own domain; its contract is stated by `IsInternalAsWritten` |
| Hyperlinks.IsInternalAsWritten | main.py:47-59 | with a base, `is_internal` holds exactly for a link without a scheme or with a domain, whatever the base's domain |
| Hyperlinks.IsSameDomain | main.py:121-133 | `_is_same_domain`: false when the domain or the target is empty, otherwise the domain equals the lower-cased target or ends with `.` and it; `IsInternalToBaseMeans` states it for the base's domain |
| Hyperlinks.InfoOf | main.py:106-119 | `info`: the record of the url, the base and every property; `LinkRecord` states what the record reports |
| Hyperlinks.IsInternalToBaseMeans | main.py:121-133 | the corrected `is_internal` holds for an absolute link exactly when its domain is the base's domain or a subdomain of it |
| HyperlinkExamples.OtherSiteCountsAsInternal | main.py:57-59 | `https://other.org/x` read against `https://example.com` is internal as written and not internal as corrected |
| HyperlinkExamples.OtherSiteAgainstExampleBase | main.py:57-59 | the same for the two literal strings |
| HyperlinkExamples.SplitOtherSite | main.py:45 | `https://other.org/x` splits into scheme `https`, authority `other.org` and path `/x` |
| HyperlinkExamples.SplitExampleBase | main.py:45 | `https://example.com` splits into scheme `https`, authority `example.com` and an empty path |
| HyperlinkExamples.SplitHash | main.py:45 | `#` splits into an empty path and an empty fragment |
| HyperlinkExamples.EmptyFragmentLink | main.py:61-75 | a link that is only `#`, against a base without a fragment written as `urlunsplit` writes it, has that base as its absolute url |
| HyperlinkExamples.HashLinkIsTheBase | main.py:61-75 | `#` read against `https://example.com` has `https://example.com` as its absolute url, with no trailing `#` |
| HyperlinkExamples.SplitMailto | main.py:45 | `mailto:me@x.org` splits into scheme `mailto`, no authority and path `me@x.org` |
| HyperlinkExamples.MailtoLink | main.py:77-104 | a `mailto:` link has scheme `mailto`, no domain, and the address as its path |
| HyperlinkExamples.MailtoHasNoDomain | main.py:86-95 | the same for the literal `mailto:me@x.org`, with or without a base |
| HyperlinkExamples.ResolveAgainstRoot | main.py:75 | against a base with an authority and an empty path, a relative path is read from the root |
| HyperlinkExamples.TeamPathAtRoot | main.py:75 | `/../about/team` loses its `..`, which has nothing to cancel at the root |
| HyperlinkExamples.TeamLinkResolves | main.py:61-75 | `../about/team` read against `https://example.com` has `https://example.com/about/team` as its absolute url |
| LinkExtractor.NewExtractor | main.py:143-144 | the base loses its trailing slashes, and is stored exactly when it is present and not empty |
| LinkExtractor.Urls | main.py:209-211 | one url per match, in match order, each the strip of the match's `url` group |
| LinkExtractor.Dedup | main.py:213-214 | `set(urls)`: no url twice, and exactly the urls of the input |
| LinkExtractor.DedupOfDistinct | main.py:213-214 | a list without repetitions is kept as it is |
| LinkExtractor.ExtractFromHtml | main.py:194-216 | an empty page gives no links; otherwise one link per match in match order, or, with `unique`, distinct urls that are exactly the matched ones; each link is built from its url and the extractor's base |
| LinkExtractor.ExtractFromUrl | main.py:163-192 | no links without a base or when the request fails; otherwise the page's text goes to `extract_from_html` |
| LinkExtractor.ValidateLinks | main.py:218-229 | one record per link, in order, each that link's `info` record, which reports the link's url and base |
| LinkExtractor.LinkRecord | main.py:106-119 | a link's record reports its stripped url, a base exactly when one was given, and an absolute url exactly when the url has a scheme or the base is not empty |
| LinkExtractor.ValidatedPage | main.py:194-229 | the records of a page's links: the k-th reports the k-th stripped match value, a base exactly when the extractor has one, and an absolute url as above |

## Findings

| source | as written | input that shows it | evidently intended | confidence | as-written member | corrected member |
|---|---|---|---|---|---|---|
| main.py:57-59 | `is_internal` compares the link's domain with the link's own domain, so every absolute link with a domain is internal | url `https://other.org/x`, base `https://example.com`: `is_internal` is true | compare with the base's domain, so `other.org` is not internal to `example.com` | not executed | HyperlinkExamples.OtherSiteCountsAsInternal | Hyperlinks.IsInternalToBase |

`Hyperlinks.IsInternal` is the method as written. `Hyperlinks.IsInternalToBase`
passes the base's domain (`Hyperlinks.BaseDomain`) instead. The lemma
`Hyperlinks.IsInternalToBaseMeans` states what it then means.

The correction keeps the source's rule that a link without a scheme is internal.
`Hyperlinks.NetworkPathTakesItsOwnHost` shows that this rule covers `//host` links
to any host too.

## Left out

- `extract_from_file` reads a file and passes its text on unchanged. File access is not modelled; `LinkExtractor.ExtractFromHtml` is what it returns.
- `LinkExtractor.ExtractFromUrl`: the HTTP request, its timeout and the printed error messages are not modelled. The fetched text, or its absence, is a parameter.
- The `__main__` demonstration, `sandbox.py`, the test file and the exception classes of `errors.py` are not part of this model.
- LinkExtractor.Dedup: Python's `set` iteration order is unspecified. The model lists urls in order of first occurrence. `ExtractFromHtml` states only that unique mode has no repetitions and the same urls.
- `cached_property` caching is not observable in a pure model. Every property is a function of the stored url and base.
- Unicode approximations:
  - `\s` and `str.strip` use Python's whitespace set exactly.
  - `\w` (for `\b`) is approximated by ASCII letters, digits, `_`, Latin-1 letters and Cyrillic.
  - `str.lower` and the case-insensitive matching of `a` and `href` are modelled on ASCII, Latin-1 and Cyrillic letters.
- HyperlinkPattern: the flags `HYPERLINK_PATTERN` is compiled with are not given next to it. `re.IGNORECASE` is assumed. `re.DOTALL` would change nothing, since the pattern has no `.`.
- UrlSplit.Split: `urlparse` also splits `;params` off the last path segment. The model keeps them in the path, so `Hyperlinks.Path` keeps them too.
- UrlSplit.Split: other `urlsplit` details are not modelled:
  - the `ValueError` for unbalanced IPv6 brackets;
  - the NFKC check on the netloc;
  - percent-decoding and IDNA.
- UrlJoin.Join follows RFC 3986 with `urljoin`'s handling of hosts, empty paths and empty queries and fragments, but not every detail of CPython's `urljoin`, which differs in these ways:
  - it drops empty path segments while merging a relative path;
  - it resolves dot segments on a stack of segments, so a `..` at the root followed by an empty segment differs: `/..//a` against `https://example.com/x` gives `https://example.com/a` in CPython and `https://example.com//a` in the model;
  - against a base without an authority, a relative path stays relative in CPython: base `a/b` with `../x` gives `x`, where the model gives `/x`;
  - it only resolves schemes in its `uses_relative` list and returns the reference unchanged for any other;
  - its `urlunsplit` writes an empty `//` for a scheme in `uses_netloc` that has no authority;
  - it returns the reference unchanged when the schemes differ, where the model still removes its dot segments.
- UrlJoin.JoinSplitsAsResolved, UrlJoin.JoinKeepsScheme: the model states these only for a base with an authority. A base such as `example.com` has none; for it the model's `Join` may differ from CPython's as listed above, and no lemma is stated.
- Hyperlinks.Domain: the whole authority, with any user information and port, is the domain, as `netloc` is in the source. No host is extracted from it.
