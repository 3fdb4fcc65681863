/** `HTMLLinkExtractor` of main.py: finds the anchors of a page with `_LINK_PATTERN`
    and wraps each `href` value, stripped, into a `Hyperlink` read against the
    extractor's base. */
module LinkExtractor {
  import opened Wrappers
  import opened Text
  import opened RegexCore
  import opened FindIter
  import opened Hyperlinks

  datatype Extractor = Extractor(baseUrl: Option<string>)

  /** `HTMLLinkExtractor(base_url)`: the base loses its trailing slashes; a missing or
      empty base is stored as `None`. Whitespace is left to `Hyperlink`. */
  function NewExtractor(baseUrl: Option<string>): (e: Extractor)
    ensures e.baseUrl.None? <==> !Truthy(baseUrl)
    ensures e.baseUrl.Some? ==>
              var b, r := baseUrl.value, e.baseUrl.value;
              && |r| <= |b| && r == b[..|r|]
              && (forall k :: |r| <= k < |b| ==> b[k] == '/')
              && (r == [] || r[|r| - 1] != '/')
  {
    if Truthy(baseUrl) then Extractor(Some(RStripSlashes(baseUrl.value))) else Extractor(None)
  }

  /** No string occurs twice. */
  predicate Distinct(xs: seq<string>) {
    forall i, j :: 0 <= i < j < |xs| ==> xs[i] != xs[j]
  }

  /** The matches `finditer` yields over the whole page. */
  function Matches(html: string): (ms: seq<Capture>)
    ensures forall m :: m in ms ==> WellPlaced(html, m)
  {
    LinkValuesAreSingleLine(html, 0);
    Scan(LinkTag, html, 0)
  }

  /** The `url` group of every match, stripped, in the order of the matches. */
  function Urls(html: string): (urls: seq<string>)
    ensures |urls| == |Matches(html)|
    ensures forall k :: 0 <= k < |urls| ==> IsStripOf(urls[k], Value(html, Matches(html)[k]))
  {
    var ms := Matches(html);
    seq(|ms|, k requires 0 <= k < |ms| => Strip(Value(html, ms[k])))
  }

  /** Every url is already stripped. */
  lemma UrlsAreStripped(html: string)
    ensures forall u :: u in Urls(html) ==> Strip(u) == u
  {
    forall u | u in Urls(html) ensures Strip(u) == u {
      var k :| 0 <= k < |Urls(html)| && Urls(html)[k] == u;
      StripIdempotent(Value(html, Matches(html)[k]));
    }
  }

  /** `set(urls)`, listed in order of first occurrence. */
  function Dedup(xs: seq<string>): (r: seq<string>)
    ensures Distinct(r)
    ensures forall x :: x in r <==> x in xs
    decreases |xs|
  {
    if xs == [] then []
    else
      var rest := Dedup(xs[..|xs| - 1]);
      var last := xs[|xs| - 1];
      assert forall x :: x in xs <==> x in xs[..|xs| - 1] || x == last;
      if last in rest then rest else rest + [last]
  }

  /** A list without repetitions is its own set, in its own order. */
  lemma {:induction false} DedupOfDistinct(xs: seq<string>)
    requires Distinct(xs)
    ensures Dedup(xs) == xs
    decreases |xs|
  {
    if xs != [] {
      var init := xs[..|xs| - 1];
      DedupOfDistinct(init);
      assert xs[|xs| - 1] !in init;
      assert init + [xs[|xs| - 1]] == xs;
    }
  }

  /** The urls of a list of links. */
  function UrlsOf(links: seq<Hyperlink>): (r: seq<string>)
    ensures |r| == |links| && forall k :: 0 <= k < |r| ==> r[k] == links[k].url
  {
    seq(|links|, k requires 0 <= k < |links| => links[k].url)
  }

  /** `extract_from_html(html, unique)`: nothing for an empty page; otherwise one link
      per match, or, with `unique`, one per distinct url; each link is built from its
      url and the extractor's base as `Hyperlink` builds it. */
  function ExtractFromHtml(e: Extractor, html: string, unique: bool): (links: seq<Hyperlink>)
    ensures html == [] ==> links == []
    ensures html != [] && !unique ==> UrlsOf(links) == Urls(html)
    ensures unique ==> Distinct(UrlsOf(links))
    ensures unique ==> forall u :: u in UrlsOf(links) <==> u in Urls(html)
    ensures forall k :: 0 <= k < |links| ==> links[k] == NewHyperlink(links[k].url, e.baseUrl)
  {
    if html == [] then []
    else
      UrlsAreStripped(html);
      Wrap(if unique then Dedup(Urls(html)) else Urls(html), e.baseUrl)
  }

  /** `[Hyperlink(url=url, base_url=base) for url in urls]`, for urls already
      stripped: the links keep the urls, in order. */
  function Wrap(urls: seq<string>, baseUrl: Option<string>): (links: seq<Hyperlink>)
    requires forall u :: u in urls ==> Strip(u) == u
    ensures UrlsOf(links) == urls
    ensures forall k :: 0 <= k < |links| ==> links[k] == NewHyperlink(links[k].url, baseUrl)
  {
    var links := seq(|urls|, k requires 0 <= k < |urls| => NewHyperlink(urls[k], baseUrl));
    assert forall k :: 0 <= k < |urls| ==> urls[k] in urls;
    assert UrlsOf(links) == urls;
    links
  }

  /** `extract_from_url(unique)`, with the page's text, or `None` when the request
      fails, given as a parameter: nothing without a base or without a page. */
  function ExtractFromUrl(e: Extractor, fetched: Option<string>, unique: bool): (links: seq<Hyperlink>)
    ensures !Truthy(e.baseUrl) || fetched.None? ==> links == []
    ensures Truthy(e.baseUrl) && fetched.Some? ==> links == ExtractFromHtml(e, fetched.value, unique)
  {
    if !Truthy(e.baseUrl) then []
    else if fetched.None? then []
    else ExtractFromHtml(e, fetched.value, unique)
  }

  /** `validate_links(links)`: the `info` record of every link, in order. */
  function ValidateLinks(links: seq<Hyperlink>): (r: seq<Info>)
    ensures |r| == |links|
    ensures forall k :: 0 <= k < |r| ==> r[k] == InfoOf(links[k])
    ensures forall k :: 0 <= k < |r| ==> r[k].url == links[k].url && r[k].baseUrl == links[k].baseUrl
  {
    seq(|links|, k requires 0 <= k < |links| => InfoOf(links[k]))
  }

  /** The record of one link built from `url` and a base: it reports that url and a
      base exactly when one was given, and an absolute url exactly when the url has a
      scheme or the stored base is not empty. */
  lemma LinkRecord(url: string, baseUrl: Option<string>, h: Hyperlink)
    requires h == NewHyperlink(url, baseUrl)
    ensures var r := InfoOf(h);
      && IsStripOf(r.url, url)
      && (r.baseUrl.None? <==> !Truthy(baseUrl))
      && (r.absoluteUrl.Some? <==> r.isAbsolute || Truthy(r.baseUrl))
  {
    AbsoluteHasScheme(h);
  }

  /** The records of a page's links, in match order: the k-th reports the k-th stripped
      `href` value, a base exactly when the extractor has one, and an absolute url
      exactly when the value has a scheme or the stored base is not empty. */
  lemma ValidatedPage(e: Extractor, html: string)
    requires html != []
    ensures var r := ValidateLinks(ExtractFromHtml(e, html, false));
      && |r| == |Matches(html)|
      && forall k :: 0 <= k < |r| ==>
           && r[k].url == Urls(html)[k]
           && (r[k].baseUrl.None? <==> !Truthy(e.baseUrl))
           && (r[k].absoluteUrl.Some? <==> r[k].isAbsolute || Truthy(r[k].baseUrl))
  {
    var links := ExtractFromHtml(e, html, false);
    var r := ValidateLinks(links);
    forall k | 0 <= k < |r|
      ensures r[k].url == Urls(html)[k]
      ensures r[k].baseUrl.None? <==> !Truthy(e.baseUrl)
      ensures r[k].absoluteUrl.Some? <==> r[k].isAbsolute || Truthy(r[k].baseUrl)
    {
      assert UrlsOf(links)[k] == links[k].url;
      LinkRecord(links[k].url, e.baseUrl, links[k]);
    }
  }
}
