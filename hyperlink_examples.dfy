/** Concrete links that show what `is_internal` answers. */
module HyperlinkExamples {
  import opened Wrappers
  import opened Text
  import opened UrlSplit
  import opened UrlJoin
  import opened Hyperlinks

  const ExampleBase: string := "https://example.com"
  const OtherSite: string := "https://other.org/x"
  const Mailto: string := "mailto:me@x.org"
  const TeamLink: string := "../about/team"

  lemma SplitExampleBase()
    ensures Split(ExampleBase) == Uri(Some("https"), Some("example.com"), "", None, None)
  {
    var u := Uri(Some("https"), Some("example.com"), "", None, None);
    assert Lower("https") == "https";
    assert Recompose(u) == ExampleBase;
    SplitRecompose(u);
  }

  lemma RecomposeExampleBase()
    ensures Recompose(Uri(Some("https"), Some("example.com"), "", None, None)) == ExampleBase
  {
  }

  lemma SplitOtherSite()
    ensures Split(OtherSite) == Uri(Some("https"), Some("other.org"), "/x", None, None)
  {
    var u := Uri(Some("https"), Some("other.org"), "/x", None, None);
    assert Lower("https") == "https";
    assert Recompose(u) == OtherSite;
    SplitRecompose(u);
  }

  /** A link to another site, read against a base on `example.com` (such as
      `OtherSite` against `ExampleBase`, whose splits are given above): `is_internal`
      calls it internal, while comparing with the base's domain says it is not. */
  lemma OtherSiteCountsAsInternal(h: Hyperlink)
    requires Split(h.url) == Uri(Some("https"), Some("other.org"), "/x", None, None)
    requires h.baseUrl.Some? && h.baseUrl.value != []
    requires Split(h.baseUrl.value) == Uri(Some("https"), Some("example.com"), "", None, None)
    ensures IsInternal(h) == Some(true)
    ensures IsInternalToBase(h) == Some(false)
  {
    var host, baseHost := Lower("other.org"), Lower("example.com");
    DomainOfAbsolute(h, "other.org");
    BaseDomainOf(h, "example.com");
    assert host[0] == 'o' && baseHost[0] == 'e';
    ForeignLink(h, host, baseHost);
  }

  /** The same, for the two literal strings. */
  lemma OtherSiteAgainstExampleBase()
    ensures IsInternal(Hyperlink(OtherSite, Some(ExampleBase))) == Some(true)
    ensures IsInternalToBase(Hyperlink(OtherSite, Some(ExampleBase))) == Some(false)
  {
    SplitOtherSite();
    SplitExampleBase();
    OtherSiteCountsAsInternal(Hyperlink(OtherSite, Some(ExampleBase)));
  }

  /** An absolute link whose domain is neither the base's nor below it. */
  lemma ForeignLink(h: Hyperlink, host: string, baseHost: string)
    requires IsAbsolute(h) && Truthy(h.baseUrl)
    requires Domain(h) == Some(host) && BaseDomain(h) == Some(baseHost)
    requires host != baseHost && |host| <= |baseHost|
    ensures IsInternal(h) == Some(true) && IsInternalToBase(h) == Some(false)
  {
    IsInternalAsWritten(h);
    IsInternalToBaseMeans(h);
  }

  /** The domain of a link whose url has a scheme is its authority, lower-cased. */
  lemma DomainOfAbsolute(h: Hyperlink, host: string)
    requires Split(h.url).scheme.Some? && Split(h.url).authority == Some(host) && host != []
    ensures IsAbsolute(h) && Domain(h) == Some(Lower(host))
  {
    assert Absolute(h) == Some(h.url);
    assert Parsed(h) == Split(h.url);
  }

  /** The domain of a base is its authority, lower-cased. */
  lemma BaseDomainOf(h: Hyperlink, host: string)
    requires Truthy(h.baseUrl) && Split(h.baseUrl.value).authority == Some(host) && host != []
    ensures BaseDomain(h) == Some(Lower(host))
  {
  }

  lemma SplitHash()
    ensures Split("#") == Uri(None, None, "", None, Some(""))
  {
    var u := Uri(None, None, "", None, Some(""));
    assert SchemeEnd("").None? by { assert FindChar("", 0, ':') == 0; }
    assert Recompose(u) == "#";
    SplitRecompose(u);
  }

  /** `<a href="#">` on a page read against `https://example.com`: its absolute url is
      the base itself, with no empty `#` after it. */
  lemma HashLinkIsTheBase(h: Hyperlink)
    requires h.url == "#" && h.baseUrl == Some(ExampleBase)
    ensures Absolute(h) == Some(ExampleBase)
  {
    var b := Uri(Some("https"), Some("example.com"), "", None, None);
    SplitHash();
    SplitExampleBase();
    RecomposeExampleBase();
    EmptyFragmentLink(h, b);
  }

  /** A link that is only an empty fragment, read against a base that has no fragment
      nor an empty query and is written as `urlunsplit` writes it, has that base as its
      absolute url. */
  lemma EmptyFragmentLink(h: Hyperlink, b: Uri)
    requires h.url != [] && Split(h.url) == Uri(None, None, "", None, Some(""))
    requires Truthy(h.baseUrl) && Split(h.baseUrl.value) == b && Recompose(b) == h.baseUrl.value
    requires b.fragment.None? && b.query != Some("")
    ensures Absolute(h) == h.baseUrl
  {
    JoinEmptyMarker(h.baseUrl.value, h.url);
  }

  lemma SplitMailto()
    ensures Split(Mailto) == Uri(Some("mailto"), None, "me@x.org", None, None)
  {
    var u := Uri(Some("mailto"), None, "me@x.org", None, None);
    assert Lower("mailto") == "mailto";
    assert Recompose(u) == Mailto;
    SplitRecompose(u);
  }

  /** A `mailto:` link is absolute with scheme `mailto`, has no domain, and its path
      is the address. */
  lemma MailtoLink(h: Hyperlink)
    requires Split(h.url) == Uri(Some("mailto"), None, "me@x.org", None, None)
    ensures IsAbsolute(h) && Scheme(h) == Some("mailto") && Domain(h).None?
    ensures Path(h) == Some("me@x.org")
  {
    AbsoluteLinkParts(h);
  }

  /** The same, for the literal string, with or without a base. */
  lemma MailtoHasNoDomain(baseUrl: Option<string>)
    ensures Domain(Hyperlink(Mailto, baseUrl)).None?
    ensures Scheme(Hyperlink(Mailto, baseUrl)) == Some("mailto")
  {
    SplitMailto();
    MailtoLink(Hyperlink(Mailto, baseUrl));
  }

  /** A relative path with no `:`, `?`, `#`, tab, CR or LF, that starts with neither
      a control, a space nor `//`, splits into that path alone. */
  lemma SplitPlainPath(p: string)
    requires p != [] && p[0] > ' ' && !StartsWith(p, "//")
    requires forall k :: 0 <= k < |p| ==> p[k] !in {':', '?', '#', '\t', '\r', '\n'}
    ensures Split(p) == Uri(None, None, p, None, None)
  {
    var u := Uri(None, None, p, None, None);
    assert FindChar(p, 0, ':') == |p|;
    assert Recompose(u) == p;
    SplitRecompose(u);
  }

  lemma SplitTeamLink()
    ensures Split(TeamLink) == Uri(None, None, TeamLink, None, None)
  {
    SplitPlainPath(TeamLink);
  }

  /** Merged onto the root of a site, the `..` of `../about/team` has no segment to
      cancel and is dropped. */
  lemma TeamPathAtRoot()
    ensures RemoveDots("/" + TeamLink) == "/about/team"
  {
    assert "/" + TeamLink == "/.." + "/about/team";
    DotDotStep("/about/team", []);
    assert DropLastSegment([]) == [];
    assert DotFree("/about/team");
    RemoveDotsFromKeepsDotFree("/about/team", []);
  }

  lemma RecomposeTeamPage()
    ensures Recompose(Uri(Some("https"), Some("example.com"), "/about/team", None, None))
            == "https://example.com/about/team"
  {
  }

  /** Against a base with an authority and an empty path, a relative path is read
      from the root. */
  lemma ResolveAgainstRoot(b: Uri, r: Uri)
    requires b.scheme.Some? && b.authority.Some? && b.path == []
    requires r.scheme.None? && r.authority.None? && r.path != [] && r.path[0] != '/'
    ensures Resolve(b, r) == Uri(b.scheme, b.authority, RemoveDots("/" + r.path), r.query, r.fragment)
  {
  }

  /** A link without a scheme whose split and whose base's split are known has the
      recomposed resolution as its absolute url. */
  lemma ResolvedLink(h: Hyperlink, b: Uri, r: Uri, t: Uri)
    requires h.url != [] && Split(h.url) == r && r.scheme.None?
    requires Truthy(h.baseUrl) && Split(h.baseUrl.value) == b
    requires Resolve(b, r) == t && t.query.None? && t.fragment.None?
    ensures Absolute(h) == Some(Recompose(t))
  {
    assert Written(t) == t;
  }

  /** `<a href="../about/team">` on a page read against `https://example.com` points
      to `https://example.com/about/team`. */
  lemma TeamLinkResolves(h: Hyperlink)
    requires h.url == TeamLink && h.baseUrl == Some(ExampleBase)
    ensures Absolute(h) == Some("https://example.com/about/team")
  {
    var b := Uri(Some("https"), Some("example.com"), "", None, None);
    var r := Uri(None, None, TeamLink, None, None);
    var t := Uri(Some("https"), Some("example.com"), "/about/team", None, None);
    SplitExampleBase();
    SplitTeamLink();
    ResolveAgainstRoot(b, r);
    TeamPathAtRoot();
    RecomposeTeamPage();
    ResolvedLink(h, b, r, t);
  }
}
