/** `Hyperlink` of main.py: a link as written in a page, with the base it is read
    against. Every property is a function of the two stripped strings; the caching
    of `cached_property` is not observable and is not modelled. */
module Hyperlinks {
  import opened Wrappers
  import opened Text
  import opened UrlSplit
  import opened UrlJoin

  datatype Hyperlink = Hyperlink(url: string, baseUrl: Option<string>)

  /** Python's truth value of an optional string: present and not empty. */
  predicate Truthy(s: Option<string>) {
    s.Some? && s.value != []
  }

  /** `Hyperlink(url, base_url)`: both are stripped, and a missing or empty base is
      stored as `None`. */
  function NewHyperlink(url: string, baseUrl: Option<string>): (h: Hyperlink)
    ensures IsStripOf(h.url, url)
    ensures h.baseUrl.None? <==> !Truthy(baseUrl)
    ensures h.baseUrl.Some? ==> IsStripOf(h.baseUrl.value, baseUrl.value)
  {
    Hyperlink(Strip(url), if Truthy(baseUrl) then Some(Strip(baseUrl.value)) else None)
  }

  /** `is_absolute`: the url has a scheme. */
  predicate IsAbsolute(h: Hyperlink) {
    Split(h.url).scheme.Some?
  }

  /** `absolute`: the url itself when it has a scheme, nothing without a base, and
      otherwise the url joined onto the base. */
  function Absolute(h: Hyperlink): Option<string> {
    if IsAbsolute(h) then Some(h.url)
    else if !Truthy(h.baseUrl) then None
    else Some(Join(h.baseUrl.value, h.url))
  }

  /** `_parsed`: the absolute url split, or the url itself when there is none. */
  function Parsed(h: Hyperlink): Uri {
    Split(if Truthy(Absolute(h)) then Absolute(h).value else h.url)
  }

  /** `scheme`: the scheme of the absolute url, possibly empty. */
  function Scheme(h: Hyperlink): (r: Option<string>)
    ensures !Truthy(Absolute(h)) ==> r.None?
    ensures Truthy(Absolute(h)) ==> r == Some(SchemeOf(Parsed(h)))
    ensures r.Some? ==> r.value == [] || IsScheme(r.value)
  {
    if Truthy(Absolute(h)) then
      SplitIsWellFormed(Absolute(h).value);
      Some(SchemeOf(Parsed(h)))
    else
      None
  }

  /** `domain`: the whole authority of the absolute url, lower-cased, unless empty. */
  function Domain(h: Hyperlink): (r: Option<string>)
    ensures !Truthy(Absolute(h)) ==> r.None?
    ensures Truthy(Absolute(h)) ==>
      r == (if NetlocOf(Parsed(h)) != [] then Some(Lower(NetlocOf(Parsed(h)))) else None)
    ensures r.Some? ==> r.value != [] && Lower(r.value) == r.value
  {
    if Truthy(Absolute(h)) then
      var netloc := NetlocOf(Parsed(h));
      LowerIdempotent(netloc);
      if netloc != [] then Some(Lower(netloc)) else None
    else
      None
  }

  /** `path`: the path of the absolute url, unless empty. */
  function Path(h: Hyperlink): (r: Option<string>)
    ensures !Truthy(Absolute(h)) ==> r.None?
    ensures Truthy(Absolute(h)) ==>
      r == (if Split(Absolute(h).value).path != [] then Some(Split(Absolute(h).value).path) else None)
    ensures r.Some? ==> r.value != [] && '?' !in r.value && '#' !in r.value
  {
    if Truthy(Absolute(h)) then
      var path := Split(Absolute(h).value).path;
      SplitIsWellFormed(Absolute(h).value);
      assert forall k :: 0 <= k < |path| ==> path[k] !in Unsafe + {'?', '#'};
      if path != [] then Some(path) else None
    else
      None
  }

  /** The empty url has no scheme. */
  lemma EmptyHasNoScheme()
    ensures Split("").scheme.None?
  {
    assert Sanitize("") == "";
    assert FindChar("", 0, ':') == 0;
  }

  /** Nor an authority. */
  lemma EmptyHasNoAuthority()
    ensures Split("").authority.None?
  {
    assert Sanitize("") == "";
    assert FindChar("", 0, ':') == 0;
  }

  /** A link whose url has a scheme reports the parts of that url: its lower-cased
      scheme, its lower-cased authority unless it is empty (as for `mailto:`), and its
      path unless it is empty (a lone `/` is kept). */
  lemma AbsoluteLinkParts(h: Hyperlink)
    requires IsAbsolute(h)
    ensures Truthy(Absolute(h)) && Parsed(h) == Split(h.url)
    ensures Scheme(h) == Split(h.url).scheme
    ensures Split(h.url).authority.None? ==> Domain(h).None?
    ensures Split(h.url).authority.Some? && Split(h.url).authority.value != [] ==>
      Domain(h) == Some(Lower(Split(h.url).authority.value))
    ensures Split(h.url).path == "/" ==> Path(h) == Some("/")
    ensures Split(h.url).path == [] <==> Path(h).None?
  {
    EmptyHasNoScheme();
  }

  /** `_is_same_domain(target)`: the link's domain is the target, lower-cased, or one
      of its subdomains. */
  predicate IsSameDomain(h: Hyperlink, target: Option<string>) {
    if !Truthy(Domain(h)) || !Truthy(target) then false
    else
      var t := Lower(target.value);
      Domain(h).value == t || EndsWith(Domain(h).value, "." + t)
  }

  /** `is_internal`, as written: nothing without a base, true without a scheme, and
      otherwise `_is_same_domain` applied to the link's own domain. */
  function IsInternal(h: Hyperlink): Option<bool> {
    if !Truthy(h.baseUrl) then None
    else if !IsAbsolute(h) then Some(true)
    else Some(IsSameDomain(h, Domain(h)))
  }

  /** The record `info` returns. */
  datatype Info = Info(
    url: string,
    baseUrl: Option<string>,
    absoluteUrl: Option<string>,
    isAbsolute: bool,
    isInternal: Option<bool>,
    scheme: Option<string>,
    domain: Option<string>,
    path: Option<string>)

  /** `info`: every property of the link in one record. */
  function InfoOf(h: Hyperlink): Info {
    Info(h.url, h.baseUrl, Absolute(h), IsAbsolute(h), IsInternal(h), Scheme(h), Domain(h), Path(h))
  }

  /** The base's own domain, read the way `domain` reads the link's. */
  function BaseDomain(h: Hyperlink): (r: Option<string>)
    ensures r.Some? ==> r.value != [] && Lower(r.value) == r.value
  {
    if Truthy(h.baseUrl) then
      var netloc := NetlocOf(Split(h.baseUrl.value));
      LowerIdempotent(netloc);
      if netloc != [] then Some(Lower(netloc)) else None
    else
      None
  }

  /** `absolute` is empty only where `is_absolute` fails and there is no base; when the
      base has a scheme and an authority, the url it gives does have a scheme. */
  lemma AbsoluteHasScheme(h: Hyperlink)
    ensures Absolute(h).None? <==> !IsAbsolute(h) && !Truthy(h.baseUrl)
    ensures IsAbsolute(h) ==> Absolute(h) == Some(h.url)
    ensures Truthy(h.baseUrl) && Split(h.baseUrl.value).scheme.Some? && Split(h.baseUrl.value).authority.Some?
            ==> Truthy(Absolute(h)) && Split(Absolute(h).value).scheme.Some?
  {
    if !IsAbsolute(h) && Truthy(h.baseUrl) && Split(h.baseUrl.value).authority.Some? {
      JoinKeepsScheme(h.baseUrl.value, h.url);
    }
  }

  /** Relative links without an authority of their own are read against the base's
      host: they share its scheme and its domain. */
  lemma RelativeLinkKeepsBaseHost(h: Hyperlink)
    requires Truthy(h.baseUrl) && !IsAbsolute(h) && Split(h.url).authority.None?
    requires Split(h.baseUrl.value).authority.Some?
    ensures Truthy(Absolute(h))
    ensures Scheme(h) == Some(SchemeOf(Split(h.baseUrl.value)))
    ensures Domain(h) == BaseDomain(h)
  {
    JoinedLink(h);
  }

  /** A network-path link (`//host/...`) is read with the base's scheme but its own
      host and its own path as written, and still counts as internal, since it has no
      scheme of its own; with an empty host (`///x`) it takes the base's domain. */
  lemma NetworkPathTakesItsOwnHost(h: Hyperlink)
    requires Truthy(h.baseUrl) && !IsAbsolute(h) && Split(h.url).authority.Some?
    requires Split(h.baseUrl.value).authority.Some?
    ensures Truthy(Absolute(h)) && Parsed(h).scheme == Split(h.baseUrl.value).scheme
    ensures Split(h.url).authority.value != [] ==> Domain(h) == Some(Lower(Split(h.url).authority.value))
    ensures Split(h.url).authority.value != [] ==>
      Path(h) == (if Split(h.url).path != [] then Some(Split(h.url).path) else None)
    ensures Split(h.url).authority.value == [] ==> Domain(h) == BaseDomain(h)
    ensures IsInternal(h) == Some(true) && IsInternalToBase(h) == Some(true)
  {
    JoinedLink(h);
    EmptyHasNoAuthority();
    if Split(h.url).authority.value != [] {
      ResolveNetworkPath(Split(h.baseUrl.value), Split(h.url));
      assert NetlocOf(Parsed(h)) == Split(h.url).authority.value;
      assert Parsed(h).path == Split(h.url).path;
    }
  }

  /** A link without a scheme, read against a base with an authority, is parsed as
      the joined url, which has the base's scheme, and the base's authority unless
      the link brings a non-empty one of its own. */
  lemma JoinedLink(h: Hyperlink)
    requires Truthy(h.baseUrl) && !IsAbsolute(h) && Split(h.baseUrl.value).authority.Some?
    ensures Absolute(h) == Some(Join(h.baseUrl.value, h.url)) && Truthy(Absolute(h))
    ensures Parsed(h).scheme == Split(h.baseUrl.value).scheme
    ensures h.url != [] ==> Parsed(h) == Written(Resolve(Split(h.baseUrl.value), Split(h.url)))
    ensures Parsed(h).authority ==
      if Split(h.url).authority.Some? && Split(h.url).authority.value != [] then Split(h.url).authority
      else Split(h.baseUrl.value).authority
  {
    JoinKeepsScheme(h.baseUrl.value, h.url);
    if h.url != [] {
      JoinSplitsAsResolved(h.baseUrl.value, h.url);
    }
  }

  /** `is_internal` as written: with a base, it holds exactly for a link without a
      scheme or with a non-empty domain, whatever the base's domain is. */
  lemma IsInternalAsWritten(h: Hyperlink)
    ensures IsInternal(h).None? <==> !Truthy(h.baseUrl)
    ensures IsInternal(h) == Some(true) <==> Truthy(h.baseUrl) && (!IsAbsolute(h) || Domain(h).Some?)
  {
    if Domain(h).Some? {
      assert Lower(Domain(h).value) == Domain(h).value;
    }
  }

  /** `is_internal` as evidently intended: an absolute link is internal when its
      domain is the base's domain or one of its subdomains. */
  function IsInternalToBase(h: Hyperlink): Option<bool> {
    if !Truthy(h.baseUrl) then None
    else if !IsAbsolute(h) then Some(true)
    else Some(IsSameDomain(h, BaseDomain(h)))
  }

  lemma IsInternalToBaseMeans(h: Hyperlink)
    requires Truthy(h.baseUrl) && IsAbsolute(h)
    ensures IsInternalToBase(h) == Some(true) <==>
      && Domain(h).Some? && BaseDomain(h).Some?
      && (Domain(h).value == BaseDomain(h).value || EndsWith(Domain(h).value, "." + BaseDomain(h).value))
  {
    if BaseDomain(h).Some? {
      assert Lower(BaseDomain(h).value) == BaseDomain(h).value;
    }
  }
}
