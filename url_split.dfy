/** `urllib.parse.urlsplit` on the generic syntax of RFC 3986: scheme (section 3.1),
    authority (section 3.2), path (section 3.3), query and fragment, and the
    recomposition of section 5.3. As in Python 3.12, the input first loses its leading
    C0 control characters and spaces and every tab, carriage return and line feed. */
module UrlSplit {
  import opened Wrappers
  import opened Text

  /** The five components. An absent component is `None`; `urlsplit` reports it as
      the empty string, which the accessors below do too. */
  datatype Uri = Uri(
    scheme: Option<string>,
    authority: Option<string>,
    path: string,
    query: Option<string>,
    fragment: Option<string>)

  /** No character of `s` belongs to `bad`. */
  predicate Excludes(s: string, bad: set<char>) {
    forall k :: 0 <= k < |s| ==> s[k] !in bad
  }

  /** Tab, carriage return and line feed, which `urlsplit` deletes wherever they are. */
  const Unsafe: set<char> := {'\t', '\r', '\n'}

  /** The first index at or after `i` whose character is neither a C0 control nor a
      space. */
  function SkipControls(s: string, i: nat): (r: nat)
    requires i <= |s|
    ensures i <= r <= |s| && (forall k :: i <= k < r ==> s[k] <= ' ')
    ensures r < |s| ==> s[r] > ' '
    decreases |s| - i
  {
    if i < |s| && s[i] <= ' ' then SkipControls(s, i + 1) else i
  }

  /** `s` with every tab, carriage return and line feed deleted. */
  function RemoveUnsafe(s: string): (r: string)
    ensures Excludes(r, Unsafe) && |r| <= |s|
    ensures forall c :: c in r <==> c in s && c !in Unsafe
  {
    if s == [] then []
    else (if s[0] in Unsafe then [] else [s[0]]) + RemoveUnsafe(s[1..])
  }

  /** Deleting works character by character: on a concatenation it deletes from
      each part. */
  lemma {:induction false} RemoveUnsafeConcat(x: string, y: string)
    ensures RemoveUnsafe(x + y) == RemoveUnsafe(x) + RemoveUnsafe(y)
    decreases |x|
  {
    if x != [] {
      assert (x + y)[1..] == x[1..] + y;
      RemoveUnsafeConcat(x[1..], y);
    } else {
      assert x + y == y;
    }
  }

  /** Deleting changes nothing exactly when there is nothing to delete. */
  lemma {:induction false} RemoveUnsafeKeepsClean(s: string)
    ensures RemoveUnsafe(s) == s <==> Excludes(s, Unsafe)
  {
    if s != [] {
      RemoveUnsafeKeepsClean(s[1..]);
      if s[0] in Unsafe {
        assert |RemoveUnsafe(s)| < |s|;
      }
    }
  }

  /** The clean-up `urlsplit` does before splitting: the leading C0 controls and
      spaces are dropped, then every tab, carriage return and line feed is deleted. */
  function Sanitize(s: string): (r: string)
    ensures r == RemoveUnsafe(s[SkipControls(s, 0)..])
    ensures Excludes(r, Unsafe)
    ensures r == [] || r[0] > ' '
  {
    var a := SkipControls(s, 0);
    var r := RemoveUnsafe(s[a..]);
    assert a < |s| ==> r == [s[a]] + RemoveUnsafe(s[a + 1..]) by {
      if a < |s| { assert s[a..][1..] == s[a + 1..]; }
    }
    r
  }

  /** A clean string that does not start with a control or a space is left alone. */
  lemma SanitizeKeepsClean(s: string)
    requires Excludes(s, Unsafe) && (s == [] || s[0] > ' ')
    ensures Sanitize(s) == s
  {
    assert SkipControls(s, 0) == 0;
    RemoveUnsafeKeepsClean(s);
  }

  predicate IsAsciiAlpha(c: char) {
    'a' <= c <= 'z' || 'A' <= c <= 'Z'
  }

  /** `scheme_chars`: letters, digits, `+`, `-` and `.`. */
  predicate IsSchemeChar(c: char) {
    IsAsciiAlpha(c) || '0' <= c <= '9' || c == '+' || c == '-' || c == '.'
  }

  /** A scheme name: an ASCII letter, then scheme characters. */
  predicate IsScheme(s: string) {
    s != [] && IsAsciiAlpha(s[0]) && forall k :: 0 <= k < |s| ==> IsSchemeChar(s[k])
  }

  /** Where the scheme of `s` ends: the first `:`, when it is not the first character
      and everything before it is a scheme name. */
  function SchemeEnd(s: string): (r: Option<nat>)
    ensures r.Some? ==> r.value < |s| && s[r.value] == ':' && IsScheme(s[..r.value])
    ensures r.Some? ==> ':' !in s[..r.value]
    ensures r.None? ==> forall i :: 0 <= i < |s| && s[i] == ':' && ':' !in s[..i] ==> !IsScheme(s[..i])
  {
    var i := FindChar(s, 0, ':');
    if 0 < i < |s| && IsScheme(s[..i]) then Some(i) else None
  }

  /** The first index at or after `i` holding `/`, `?` or `#`, or `|s|`. */
  function AuthorityEnd(s: string, i: nat): (r: nat)
    requires i <= |s|
    ensures i <= r <= |s| && Excludes(s[i..r], {'/', '?', '#'})
    ensures r < |s| ==> s[r] in {'/', '?', '#'}
    decreases |s| - i
  {
    if i < |s| && s[i] !in {'/', '?', '#'} then AuthorityEnd(s, i + 1) else i
  }

  /** After the scheme: an authority when the rest starts with `//`, up to the first of
      `/`, `?` and `#`. */
  function SplitAuthority(s: string): (r: (Option<string>, string))
    ensures r.0.Some? ==> Excludes(r.0.value, {'/', '?', '#'}) && s == "//" + r.0.value + r.1
    ensures r.0.Some? ==> r.1 == [] || r.1[0] in {'/', '?', '#'}
    ensures r.0.None? ==> r.1 == s && !StartsWith(s, "//")
  {
    if StartsWith(s, "//") then
      var d := AuthorityEnd(s, 2);
      assert s == s[..2] + s[2..d] + s[d..];
      (Some(s[2..d]), s[d..])
    else
      (None, s)
  }

  /** The fragment: everything after the first `#`. */
  function SplitFragment(s: string): (r: (string, Option<string>))
    ensures r.1.Some? ==> s == r.0 + "#" + r.1.value
    ensures r.1.None? ==> r.0 == s
    ensures '#' !in r.0
  {
    var f := FindChar(s, 0, '#');
    if f < |s| then
      assert s == s[..f] + "#" + s[f + 1..];
      (s[..f], Some(s[f + 1..]))
    else
      (s, None)
  }

  /** The query: everything after the first `?` of what precedes the fragment. */
  function SplitQuery(s: string): (r: (string, Option<string>))
    ensures r.1.Some? ==> s == r.0 + "?" + r.1.value
    ensures r.1.None? ==> r.0 == s
    ensures '?' !in r.0
  {
    var q := FindChar(s, 0, '?');
    if q < |s| then
      assert s == s[..q] + "?" + s[q + 1..];
      (s[..q], Some(s[q + 1..]))
    else
      (s, None)
  }

  /** `urlsplit(s)`, with the scheme lower-cased. */
  function Split(s: string): Uri {
    var u := Sanitize(s);
    var scheme := SchemeEnd(u);
    if scheme.Some? then SplitRest(u[scheme.value + 1..]).(scheme := Some(Lower(u[..scheme.value])))
    else SplitRest(u)
  }

  /** What follows the scheme: the authority, then the fragment, then the query; the
      scheme is left absent. */
  function SplitRest(rest: string): Uri {
    var (authority, afterAuthority) := SplitAuthority(rest);
    var (beforeFragment, fragment) := SplitFragment(afterAuthority);
    var (path, query) := SplitQuery(beforeFragment);
    Uri(None, authority, path, query, fragment)
  }

  /** `.scheme`, `.netloc` and `.path` of the result, absent parts being empty. */
  function SchemeOf(u: Uri): string { if u.scheme.Some? then u.scheme.value else "" }
  function NetlocOf(u: Uri): string { if u.authority.Some? then u.authority.value else "" }

  /** Recomposition, section 5.3 of RFC 3986. */
  function Recompose(u: Uri): string {
    (if u.scheme.Some? then u.scheme.value + ":" else "") + Hier(u)
  }

  /** Everything after the scheme. */
  function Hier(u: Uri): string {
    (if u.authority.Some? then "//" + u.authority.value else "") + Tail(u)
  }

  /** Path, query and fragment. */
  function Tail(u: Uri): string {
    u.path + (if u.query.Some? then "?" + u.query.value else "")
    + (if u.fragment.Some? then "#" + u.fragment.value else "")
  }

  /** The components `Split` can produce, and whose recomposition it splits back
      into the same components. */
  predicate WellFormed(u: Uri) {
    && (u.scheme.Some? ==> IsScheme(u.scheme.value) && Lower(u.scheme.value) == u.scheme.value)
    && (u.authority.Some? ==> Excludes(u.authority.value, Unsafe + {'/', '?', '#'}))
    && Excludes(u.path, Unsafe + {'?', '#'})
    && (u.query.Some? ==> Excludes(u.query.value, Unsafe + {'#'}))
    && (u.fragment.Some? ==> Excludes(u.fragment.value, Unsafe))
    // with an authority the path is empty or absolute; without one it cannot start with `//`
    && (u.authority.Some? ==> u.path == [] || u.path[0] == '/')
    && (u.authority.None? ==> !StartsWith(u.path, "//"))
    // a relative path without a scheme cannot look like one, nor start with a control
    && (u.scheme.None? && u.authority.None? ==>
          SchemeEnd(u.path).None? && (u.path == [] || u.path[0] > ' '))
  }

  lemma {:induction false} AuthorityEndIs(s: string, i: nat, k: nat)
    requires i <= k <= |s| && Excludes(s[i..k], {'/', '?', '#'}) && (k < |s| ==> s[k] in {'/', '?', '#'})
    ensures AuthorityEnd(s, i) == k
    decreases k - i
  {
    if i < k {
      assert s[i] == s[i..k][0];
      assert s[i + 1..k] == s[i..k][1..];
      AuthorityEndIs(s, i + 1, k);
    }
  }

  lemma SplitQueryOf(u: Uri)
    requires WellFormed(u)
    ensures SplitQuery(u.path + (if u.query.Some? then "?" + u.query.value else "")) == (u.path, u.query)
  {
    var x := u.path + (if u.query.Some? then "?" + u.query.value else "");
    assert AvoidsBetween(x, 0, |u.path|, '?') by {
      forall k | 0 <= k < |u.path| ensures x[k] != '?' {
        assert x[k] == u.path[k] && u.path[k] !in Unsafe + {'?', '#'};
      }
    }
    if u.query.Some? {
      assert x[|u.path|] == '?';
      FindCharIs(x, 0, '?', |u.path|);
      assert x[..|u.path|] == u.path && x[|u.path| + 1..] == u.query.value;
    } else {
      assert x == u.path;
      FindCharIs(x, 0, '?', |x|);
    }
  }

  lemma SplitFragmentOf(u: Uri)
    requires WellFormed(u)
    ensures SplitFragment(Tail(u)) == (u.path + (if u.query.Some? then "?" + u.query.value else ""), u.fragment)
  {
    var pq := u.path + (if u.query.Some? then "?" + u.query.value else "");
    var x := Tail(u);
    assert x == pq + (if u.fragment.Some? then "#" + u.fragment.value else "");
    assert AvoidsBetween(x, 0, |pq|, '#') by {
      forall k | 0 <= k < |pq| ensures x[k] != '#' {
        if k < |u.path| {
          assert x[k] == u.path[k] && u.path[k] !in Unsafe + {'?', '#'};
        } else if k > |u.path| {
          assert x[k] == u.query.value[k - |u.path| - 1] && u.query.value[k - |u.path| - 1] !in Unsafe + {'#'};
        }
      }
    }
    if u.fragment.Some? {
      assert x[|pq|] == '#';
      FindCharIs(x, 0, '#', |pq|);
      assert x[..|pq|] == pq && x[|pq| + 1..] == u.fragment.value;
    } else {
      assert x == pq;
      FindCharIs(x, 0, '#', |x|);
    }
  }

  /** What `Tail` starts with: the path's first character, or the `?` or `#` that
      introduces the query or the fragment. */
  lemma TailStart(u: Uri)
    ensures Tail(u) == [] || (u.path != [] && Tail(u)[0] == u.path[0])
      || (u.path == [] && Tail(u)[0] in {'?', '#'})
  {
  }

  lemma SplitAuthorityOf(u: Uri)
    requires WellFormed(u)
    ensures SplitAuthority(Hier(u)) == (u.authority, Tail(u))
  {
    if u.authority.Some? {
      SplitGivenAuthority(u);
    } else {
      assert Hier(u) == Tail(u);
      TailAfterPath(u);
      NoAuthorityBeforeDelimiter(u.path, Tail(u.(path := [])));
    }
  }

  lemma SplitGivenAuthority(u: Uri)
    requires WellFormed(u) && u.authority.Some?
    ensures SplitAuthority(Hier(u)) == (u.authority, Tail(u))
  {
    var x := Hier(u);
    var t := Tail(u);
    var a := u.authority.value;
    TailStart(u);
    assert x == "//" + a + t;
    assert x[2..2 + |a|] == a;
    assert Excludes(a, {'/', '?', '#'}) by {
      forall k | 0 <= k < |a| ensures a[k] !in {'/', '?', '#'} {
        assert a[k] !in Unsafe + {'/', '?', '#'};
      }
    }
    assert 2 + |a| < |x| ==> x[2 + |a|] == t[0];
    AuthorityEndIs(x, 2, 2 + |a|);
    assert x[2 + |a|..] == t;
  }

  /** Recomposing puts nothing in front that `urlsplit` would strip or delete. */
  lemma RecomposeIsSanitized(u: Uri)
    requires WellFormed(u)
    ensures Sanitize(Recompose(u)) == Recompose(u)
  {
    RecomposeExcludesUnsafe(u);
    RecomposeStart(u);
    SanitizeKeepsClean(Recompose(u));
  }

  lemma RecomposeExcludesUnsafe(u: Uri)
    requires WellFormed(u)
    ensures Excludes(Recompose(u), Unsafe)
  {
    var a := if u.authority.Some? then "//" + u.authority.value else "";
    var sc := if u.scheme.Some? then u.scheme.value + ":" else "";
    TailExcludesUnsafe(u);
    if u.authority.Some? {
      ExcludesWeaken(u.authority.value, Unsafe, {'/', '?', '#'});
      ExcludesConcat("//", u.authority.value, Unsafe);
    }
    ExcludesConcat(a, Tail(u), Unsafe);
    assert Hier(u) == a + Tail(u);
    if u.scheme.Some? {
      assert Excludes(u.scheme.value, Unsafe) by {
        forall k | 0 <= k < |u.scheme.value| ensures u.scheme.value[k] !in Unsafe {
          assert IsSchemeChar(u.scheme.value[k]);
        }
      }
      ExcludesConcat(u.scheme.value, ":", Unsafe);
    }
    ExcludesConcat(sc, Hier(u), Unsafe);
  }

  lemma TailExcludesUnsafe(u: Uri)
    requires WellFormed(u)
    ensures Excludes(Tail(u), Unsafe)
  {
    var q := if u.query.Some? then "?" + u.query.value else "";
    var f := if u.fragment.Some? then "#" + u.fragment.value else "";
    ExcludesWeaken(u.path, Unsafe, {'?', '#'});
    if u.query.Some? {
      ExcludesWeaken(u.query.value, Unsafe, {'#'});
      ExcludesConcat("?", u.query.value, Unsafe);
    }
    if u.fragment.Some? {
      ExcludesConcat("#", u.fragment.value, Unsafe);
    }
    ExcludesConcat(u.path, q, Unsafe);
    ExcludesConcat(u.path + q, f, Unsafe);
    assert Tail(u) == u.path + q + f;
  }

  lemma ExcludesWeaken(s: string, bad: set<char>, more: set<char>)
    requires Excludes(s, bad + more)
    ensures Excludes(s, bad)
  {
  }

  /** A recomposed URI starts with a scheme letter, `/`, `?`, `#` or the path's first
      character, none of them a control or a space. */
  lemma RecomposeStart(u: Uri)
    requires WellFormed(u)
    ensures Recompose(u) == [] || Recompose(u)[0] > ' '
  {
    TailStart(u);
  }

  lemma ExcludesConcat(a: string, b: string, bad: set<char>)
    requires Excludes(a, bad) && Excludes(b, bad)
    ensures Excludes(a + b, bad)
  {
    forall k | 0 <= k < |a + b| ensures (a + b)[k] !in bad {
      if k >= |a| {
        assert (a + b)[k] == b[k - |a|];
      }
    }
  }

  lemma SchemeEndOf(u: Uri)
    requires WellFormed(u)
    ensures SchemeEnd(Recompose(u)) == (if u.scheme.Some? then Some(|u.scheme.value|) else None)
  {
    var x := Recompose(u);
    if u.scheme.Some? {
      var sc := u.scheme.value;
      assert x[..|sc|] == sc && x[|sc|] == ':';
      FindCharIs(x, 0, ':', |sc|);
    } else if u.authority.Some? {
      assert x[0] == '/';
    } else {
      assert x == Tail(u);
      NoSchemeInTail(u);
    }
  }

  /** `Tail` is the path followed by what `Tail` gives without it, which is empty or
      starts with `?` or `#`. */
  lemma TailAfterPath(u: Uri)
    ensures Tail(u) == u.path + Tail(u.(path := []))
    ensures Tail(u.(path := [])) == [] || Tail(u.(path := []))[0] in {'?', '#'}
  {
  }

  lemma NoSchemeInTail(u: Uri)
    requires WellFormed(u) && u.scheme.None? && u.authority.None?
    ensures SchemeEnd(Tail(u)).None?
  {
    TailAfterPath(u);
    NoSchemeBeforeDelimiter(u.path, Tail(u.(path := [])));
  }

  /** A string with no scheme keeps having none when text starting with `?` or `#`
      follows it. */
  lemma NoSchemeBeforeDelimiter(p: string, r: string)
    requires SchemeEnd(p).None? && (r == [] || r[0] in {'?', '#'})
    ensures SchemeEnd(p + r).None?
  {
    var x := p + r;
    var i := FindChar(x, 0, ':');
    assert x[..|p|] == p;
    if i < |p| {
      assert AvoidsBetween(p, 0, i, ':') by {
        forall k | 0 <= k < i ensures p[k] != ':' {
          assert p[k] == x[k];
        }
      }
      FindCharIs(p, 0, ':', i);
      assert x[..i] == p[..i];
    } else if i < |x| {
      assert x[|p|] == r[0];
      if |p| < i {
        assert x[..i][|p|] in {'?', '#'};
      }
    }
  }

  /** Likewise a string that does not start with `//`. */
  lemma NoAuthorityBeforeDelimiter(p: string, r: string)
    requires !StartsWith(p, "//") && (r == [] || r[0] in {'?', '#'})
    ensures !StartsWith(p + r, "//")
  {
    if |p| >= 2 {
      assert (p + r)[..2] == p[..2];
    } else if |p + r| >= 2 {
      assert (p + r)[|p|] == r[0];
    }
  }

  /** Splitting a recomposed URI gives back its components. */
  lemma SplitRecompose(u: Uri)
    requires WellFormed(u)
    ensures Split(Recompose(u)) == u
  {
    var x := Recompose(u);
    RecomposeIsSanitized(u);
    SchemeEndOf(u);
    if u.scheme.Some? {
      var sc := u.scheme.value;
      assert x[..|sc|] == sc && x[|sc| + 1..] == Hier(u);
    }
    SplitRestOf(u);
  }

  /** What follows the scheme splits back into the other four components. */
  lemma SplitRestOf(u: Uri)
    requires WellFormed(u)
    ensures SplitRest(Hier(u)) == u.(scheme := None)
  {
    SplitAuthorityOf(u);
    SplitFragmentOf(u);
    SplitQueryOf(u);
  }

  /** Lower-casing a scheme name leaves a scheme name, which lower-casing then keeps. */
  lemma LowerScheme(s: string)
    requires IsScheme(s)
    ensures IsScheme(Lower(s)) && Lower(Lower(s)) == Lower(s)
  {
    LowerIdempotent(s);
  }

  /** What has no scheme, neither has any prefix of it. */
  lemma NoSchemeInPrefix(x: string, p: string)
    requires SchemeEnd(x).None? && |p| <= |x| && p == x[..|p|]
    ensures SchemeEnd(p).None?
  {
    var i := FindChar(p, 0, ':');
    if i < |p| {
      assert AvoidsBetween(x, 0, i, ':') by {
        forall k | 0 <= k < i ensures x[k] != ':' {
          assert x[k] == p[k];
        }
      }
      FindCharIs(x, 0, ':', i);
      assert x[..i] == p[..i];
    }
  }

  lemma ExcludesSlice(s: string, a: nat, b: nat, bad: set<char>)
    requires a <= b <= |s| && Excludes(s, bad)
    ensures Excludes(s[a..b], bad)
  {
    forall k | 0 <= k < b - a ensures s[a..b][k] !in bad {
      assert s[a..b][k] == s[a + k];
    }
  }

  /** The path, query and fragment `Split` finds in what follows the authority. */
  lemma SplitTailWellFormed(rest: string)
    requires Excludes(rest, Unsafe)
    ensures var (bf, fragment) := SplitFragment(rest);
      var (path, query) := SplitQuery(bf);
      && path == rest[..|path|]
      && Excludes(path, Unsafe + {'?', '#'})
      && (query.Some? ==> Excludes(query.value, Unsafe + {'#'}))
      && (fragment.Some? ==> Excludes(fragment.value, Unsafe))
      && (rest != [] && rest[0] in {'?', '#'} ==> path == [])
  {
    var (bf, fragment) := SplitFragment(rest);
    var (path, query) := SplitQuery(bf);
    assert bf == rest[..|bf|];
    ExcludesSlice(rest, 0, |bf|, Unsafe);
    assert path == bf[..|path|];
    assert path == rest[..|path|];
    ExcludesSlice(bf, 0, |path|, Unsafe);
    assert Excludes(path, Unsafe + {'?', '#'}) by {
      forall k | 0 <= k < |path| ensures path[k] !in Unsafe + {'?', '#'} {
        assert path[k] == bf[k];
        assert path[k] in path;
      }
    }
    if query.Some? {
      ExcludesSlice(bf, |path| + 1, |bf|, Unsafe);
      assert query.value == bf[|path| + 1..];
      assert Excludes(query.value, Unsafe + {'#'}) by {
        forall k | 0 <= k < |query.value| ensures query.value[k] !in Unsafe + {'#'} {
          assert query.value[k] in bf;
        }
      }
    }
    if fragment.Some? {
      ExcludesSlice(rest, |bf| + 1, |rest|, Unsafe);
      assert fragment.value == rest[|bf| + 1..];
    }
  }

  /** The components `Split` finds after the scheme: everything `WellFormed` asks of
      them except what concerns the scheme. */
  lemma SplitHierWellFormed(rest: string)
    requires Excludes(rest, Unsafe)
    ensures var r := SplitRest(rest);
      && (r.authority.Some? ==> Excludes(r.authority.value, Unsafe + {'/', '?', '#'}))
      && Excludes(r.path, Unsafe + {'?', '#'})
      && (r.query.Some? ==> Excludes(r.query.value, Unsafe + {'#'}))
      && (r.fragment.Some? ==> Excludes(r.fragment.value, Unsafe))
      && (r.authority.Some? ==> r.path == [] || r.path[0] == '/')
      && (r.authority.None? ==> !StartsWith(r.path, "//") && |r.path| <= |rest| && r.path == rest[..|r.path|])
  {
    var (authority, afterAuthority) := SplitAuthority(rest);
    if authority.Some? {
      var n := |authority.value|;
      assert authority.value == rest[2..2 + n] && afterAuthority == rest[2 + n..];
      ExcludesSlice(rest, 2, 2 + n, Unsafe);
      ExcludesSlice(rest, 2 + n, |rest|, Unsafe);
      assert Excludes(authority.value, Unsafe + {'/', '?', '#'}) by {
        forall k | 0 <= k < n ensures authority.value[k] !in Unsafe + {'/', '?', '#'} {
          assert authority.value[k] !in {'/', '?', '#'};
        }
      }
    }
    SplitTailWellFormed(afterAuthority);
    var (bf, fragment) := SplitFragment(afterAuthority);
    var (path, query) := SplitQuery(bf);
    assert SplitRest(rest) == Uri(None, authority, path, query, fragment);
    if path != [] {
      assert path[0] == afterAuthority[0];
      assert path[0] in path;
    }
    if authority.None? && |path| >= 2 {
      assert path[..2] == afterAuthority[..2];
    }
  }

  /** Whatever `urlsplit` returns is well formed. */
  lemma SplitIsWellFormed(s: string)
    ensures WellFormed(Split(s))
  {
    var u := Sanitize(s);
    if SchemeEnd(u).Some? {
      SchemedSplitWellFormed(u);
    } else {
      SchemelessSplitWellFormed(u);
    }
  }

  lemma SchemedSplitWellFormed(u: string)
    requires Excludes(u, Unsafe) && SchemeEnd(u).Some?
    ensures var i := SchemeEnd(u).value;
      WellFormed(SplitRest(u[i + 1..]).(scheme := Some(Lower(u[..i]))))
  {
    var i := SchemeEnd(u).value;
    LowerScheme(u[..i]);
    ExcludesSlice(u, i + 1, |u|, Unsafe);
    SplitHierWellFormed(u[i + 1..]);
  }

  lemma SchemelessSplitWellFormed(u: string)
    requires Excludes(u, Unsafe) && (u == [] || u[0] > ' ') && SchemeEnd(u).None?
    ensures WellFormed(SplitRest(u))
  {
    SplitHierWellFormed(u);
    var path := SplitRest(u).path;
    if SplitRest(u).authority.None? {
      NoSchemeInPrefix(u, path);
      assert path != [] ==> path[0] == u[0];
    }
  }
}
