/** `urllib.parse.urljoin` as reference resolution, section 5.2 of RFC 3986: the
    non-strict transform of section 5.2.2, the merge of section 5.2.3 and
    `remove_dot_segments` of section 5.2.4, with recomposition by section 5.3. */
module UrlJoin {
  import opened Wrappers
  import opened Text
  import opened UrlSplit

  /** A complete segment of `x` starting at `i` is `.` or `..`. */
  predicate DotSegmentAt(x: string, i: nat)
    requires i < |x|
  {
    && (i == 0 || x[i - 1] == '/') && x[i] == '.'
    && (i + 1 == |x| || x[i + 1] == '/' || (x[i + 1] == '.' && (i + 2 == |x| || x[i + 2] == '/')))
  }

  /** No segment of `x` is `.` or `..`. */
  predicate DotFree(x: string) {
    forall i :: 0 <= i < |x| ==> !DotSegmentAt(x, i)
  }

  /** Where the first segment of `x` ends: at the next `/` after its first character. */
  function SegmentEnd(x: string): (r: nat)
    requires x != []
    ensures 0 < r <= |x| && (r < |x| ==> x[r] == '/')
    ensures forall k :: 0 < k < r ==> x[k] != '/'
  {
    FindChar(x, 1, '/')
  }

  /** The output buffer without its last segment and the `/` before it. */
  function DropLastSegment(out: string): (r: string)
    ensures |r| <= |out| && r == out[..|r|]
    ensures |r| < |out| ==> out[|r|] == '/' || r == []
    decreases |out|
  {
    if out == [] then []
    else if out[|out| - 1] == '/' then out[..|out| - 1]
    else DropLastSegment(out[..|out| - 1])
  }

  /** The loop of section 5.2.4, moving the input buffer `input` to the output buffer
      `out` one step at a time. */
  function RemoveDotsFrom(input: string, out: string): string
    decreases |input|
  {
    if input == [] then out
    // A: a leading "../" or "./" is removed
    else if StartsWith(input, "../") then RemoveDotsFrom(input[3..], out)
    else if StartsWith(input, "./") then RemoveDotsFrom(input[2..], out)
    // B: a leading "/./" or a whole "/." becomes "/"
    else if StartsWith(input, "/./") then RemoveDotsFrom(input[2..], out)
    else if input == "/." then RemoveDotsFrom("/", out)
    // C: a leading "/../" or a whole "/.." becomes "/" and drops the last output segment
    else if StartsWith(input, "/../") then RemoveDotsFrom(input[3..], DropLastSegment(out))
    else if input == "/.." then RemoveDotsFrom("/", DropLastSegment(out))
    // D: a whole "." or ".." is removed
    else if input == "." || input == ".." then out
    // E: the first segment moves to the output
    else
      var n := SegmentEnd(input);
      RemoveDotsFrom(input[n..], out + input[..n])
  }

  /** `remove_dot_segments`. */
  function RemoveDots(path: string): string {
    RemoveDotsFrom(path, [])
  }

  /** Whether a position before `|x|` starts a dot segment does not depend on text
      after `x` that starts with `/`. */
  lemma DotSegmentsBeforeSlash(x: string, y: string)
    requires y == [] || y[0] == '/'
    ensures forall i :: 0 <= i < |x| ==> (DotSegmentAt(x + y, i) <==> DotSegmentAt(x, i))
  {
    var xy := x + y;
    forall i | 0 <= i < |x| ensures DotSegmentAt(xy, i) <==> DotSegmentAt(x, i) {
      assert xy[i] == x[i];
      assert i > 0 ==> xy[i - 1] == x[i - 1];
      assert i + 1 < |x| ==> xy[i + 1] == x[i + 1];
      assert i + 2 < |x| ==> xy[i + 2] == x[i + 2];
      assert i + 1 == |x| && y != [] ==> xy[i + 1] == '/';
      assert i + 2 == |x| && y != [] ==> xy[i + 2] == '/';
    }
  }

  /** The state the loop keeps: the output has no dot segment, and the input starts
      with `/` unless it is empty or nothing has been output yet. */
  predicate Invariant(input: string, out: string) {
    DotFree(out) && (input == [] || input[0] == '/' || out == [])
  }

  lemma DropKeepsDotFree(out: string)
    requires DotFree(out)
    ensures DotFree(DropLastSegment(out))
  {
    var r := DropLastSegment(out);
    if r != [] {
      assert out == r + out[|r|..];
      DotSegmentsBeforeSlash(r, out[|r|..]);
    }
  }

  /** Step E appends a segment that is neither `.` nor `..`. */
  lemma AppendKeepsDotFree(input: string, out: string)
    requires Invariant(input, out) && input != []
    requires !StartsWith(input, "../") && !StartsWith(input, "./") && !StartsWith(input, "/./")
    requires input != "/." && !StartsWith(input, "/../") && input != "/.." && input != "." && input != ".."
    ensures DotFree(out + input[..SegmentEnd(input)])
  {
    var n := SegmentEnd(input);
    var seg := input[..n];
    var xy := out + seg;
    if input[0] == '/' {
      DotSegmentsBeforeSlash(out, seg);
    }
  }

  /** Every run of the loop ends with an output free of dot segments. */
  lemma {:induction false} RemoveDotsFromIsDotFree(input: string, out: string)
    requires Invariant(input, out)
    ensures DotFree(RemoveDotsFrom(input, out))
    decreases |input|
  {
    if input == [] {
    } else if StartsWith(input, "../") {
      RemoveDotsFromIsDotFree(input[3..], out);
    } else if StartsWith(input, "./") {
      RemoveDotsFromIsDotFree(input[2..], out);
    } else if StartsWith(input, "/./") {
      RemoveDotsFromIsDotFree(input[2..], out);
    } else if input == "/." {
      RemoveDotsFromIsDotFree("/", out);
    } else if StartsWith(input, "/../") {
      DropKeepsDotFree(out);
      RemoveDotsFromIsDotFree(input[3..], DropLastSegment(out));
    } else if input == "/.." {
      DropKeepsDotFree(out);
      RemoveDotsFromIsDotFree("/", DropLastSegment(out));
    } else if input == "." || input == ".." {
    } else {
      var n := SegmentEnd(input);
      AppendKeepsDotFree(input, out);
      RemoveDotsFromIsDotFree(input[n..], out + input[..n]);
    }
  }

  /** A path without dot segments is not changed by the loop. */
  lemma {:induction false} RemoveDotsFromKeepsDotFree(input: string, out: string)
    requires DotFree(input) && (input == [] || input[0] == '/' || out == [])
    ensures RemoveDotsFrom(input, out) == out + input
    decreases |input|
  {
    if input != [] {
      OnlyStepE(input);
      var n := SegmentEnd(input);
      DotFreeAfterSegment(input);
      RemoveDotsFromKeepsDotFree(input[n..], out + input[..n]);
      assert out + input[..n] + input[n..] == out + input;
    }
  }

  /** On a path without dot segments only step E applies. */
  lemma OnlyStepE(input: string)
    requires DotFree(input) && input != []
    ensures !StartsWith(input, "../") && !StartsWith(input, "./") && !StartsWith(input, "/./")
    ensures input != "/." && !StartsWith(input, "/../") && input != "/.." && input != "." && input != ".."
  {
    assert !DotSegmentAt(input, 0);
    assert |input| > 1 ==> !DotSegmentAt(input, 1);
  }

  /** What follows the first segment has no dot segment either. */
  lemma DotFreeAfterSegment(input: string)
    requires DotFree(input) && input != []
    ensures DotFree(input[SegmentEnd(input)..])
  {
    var n := SegmentEnd(input);
    var rest := input[n..];
    forall j | 0 <= j < |rest| ensures !DotSegmentAt(rest, j) {
      assert !DotSegmentAt(input, n + j);
      assert rest[j] == input[n + j];
      assert j > 0 ==> rest[j - 1] == input[n + j - 1];
      assert j + 1 < |rest| ==> rest[j + 1] == input[n + j + 1];
      assert j + 2 < |rest| ==> rest[j + 2] == input[n + j + 2];
    }
  }

  /** `remove_dot_segments` leaves no `.` or `..` segment, and changes a path exactly
      when it has one; so applying it twice is applying it once. */
  lemma RemoveDotsIsDotFree(path: string)
    ensures DotFree(RemoveDots(path))
    ensures RemoveDots(path) == path <==> DotFree(path)
    ensures RemoveDots(RemoveDots(path)) == RemoveDots(path)
  {
    RemoveDotsFromIsDotFree(path, []);
    if DotFree(path) {
      RemoveDotsFromKeepsDotFree(path, []);
    }
    RemoveDotsFromKeepsDotFree(RemoveDots(path), []);
  }

  /** An absolute path stays absolute. */
  lemma {:induction false} RemoveDotsFromKeepsSlash(input: string, out: string)
    requires out == [] || out[0] == '/'
    requires (input != [] && input[0] == '/') || (input == [] && out != [])
    ensures var r := RemoveDotsFrom(input, out); r != [] && r[0] == '/'
    decreases |input|
  {
    if input == [] {
    } else {
      assert !StartsWith(input, "../") && !StartsWith(input, "./") && input != "." && input != "..";
      if StartsWith(input, "/./") {
        assert input[2..][0] == '/';
        RemoveDotsFromKeepsSlash(input[2..], out);
      } else if input == "/." {
        RemoveDotsFromKeepsSlash("/", out);
      } else if StartsWith(input, "/../") {
        assert input[3..][0] == '/';
        RemoveDotsFromKeepsSlash(input[3..], DropLastSegment(out));
      } else if input == "/.." {
        RemoveDotsFromKeepsSlash("/", DropLastSegment(out));
      } else {
        var n := SegmentEnd(input);
        assert (out + input[..n])[0] == '/';
        RemoveDotsFromKeepsSlash(input[n..], out + input[..n]);
      }
    }
  }

  /** The loop only ever moves characters of its input to its output. */
  lemma {:induction false} RemoveDotsFromExcludes(input: string, out: string, bad: set<char>)
    requires Excludes(input, bad) && Excludes(out, bad)
    ensures Excludes(RemoveDotsFrom(input, out), bad)
    decreases |input|
  {
    if input == [] {
    } else if StartsWith(input, "../") {
      RemoveDotsFromExcludes(input[3..], out, bad);
    } else if StartsWith(input, "./") {
      RemoveDotsFromExcludes(input[2..], out, bad);
    } else if StartsWith(input, "/./") {
      RemoveDotsFromExcludes(input[2..], out, bad);
    } else if input == "/." {
      assert input[0] !in bad;
      RemoveDotsFromExcludes("/", out, bad);
    } else if StartsWith(input, "/../") {
      RemoveDotsFromExcludes(input[3..], DropLastSegment(out), bad);
    } else if input == "/.." {
      assert input[0] !in bad;
      RemoveDotsFromExcludes("/", DropLastSegment(out), bad);
    } else if input == "." || input == ".." {
    } else {
      var n := SegmentEnd(input);
      RemoveDotsFromExcludes(input[n..], out + input[..n], bad);
    }
  }

  /** `remove_dot_segments` keeps a path absolute and introduces no new character. */
  lemma RemoveDotsKeeps(path: string, bad: set<char>)
    ensures path != [] && path[0] == '/' ==> RemoveDots(path) != [] && RemoveDots(path)[0] == '/'
    ensures Excludes(path, bad) ==> Excludes(RemoveDots(path), bad)
  {
    if path != [] && path[0] == '/' {
      RemoveDotsFromKeepsSlash(path, []);
    }
    if Excludes(path, bad) {
      RemoveDotsFromExcludes(path, [], bad);
    }
  }

  /** Step E's test on `x + z` is step E's test on `x`: when `x` has no dot segment
      and `z` is empty or starts with `/`, none of the steps A to D applies, and the
      first segment ends where it ends in `x`, or at the end of `x`. */
  lemma OnlyStepEBeforeSlash(x: string, z: string)
    requires DotFree(x) && x != [] && (z == [] || z[0] == '/')
    ensures var xz := x + z;
      && !StartsWith(xz, "../") && !StartsWith(xz, "./") && !StartsWith(xz, "/./")
      && xz != "/." && !StartsWith(xz, "/../") && xz != "/.." && xz != "." && xz != ".."
      && SegmentEnd(xz) == SegmentEnd(x)
  {
    var xz := x + z;
    DotSegmentsBeforeSlash(x, z);
    assert !DotSegmentAt(xz, 0);
    assert |x| > 1 ==> !DotSegmentAt(xz, 1);
    assert |x| == 1 && z != [] ==> xz[1] == '/';
    var n := SegmentEnd(x);
    assert AvoidsBetween(xz, 1, n, '/') by {
      forall k | 1 <= k < n ensures xz[k] != '/' { assert xz[k] == x[k]; }
    }
    if n < |x| {
      assert xz[n] == '/';
    } else if z != [] {
      assert xz[n] == '/';
    }
    FindCharIs(xz, 1, '/', n);
  }

  /** Step E: when none of the steps A to D applies, the first segment moves to the
      output. */
  lemma StepE(input: string, out: string)
    requires input != []
    requires !StartsWith(input, "../") && !StartsWith(input, "./") && !StartsWith(input, "/./")
    requires input != "/." && !StartsWith(input, "/../") && input != "/.." && input != "." && input != ".."
    ensures RemoveDotsFrom(input, out) ==
      RemoveDotsFrom(input[SegmentEnd(input)..], out + input[..SegmentEnd(input)])
  {
  }

  /** A leading part of the input without dot segments goes to the output as it is,
      when what follows it starts a new segment. */
  lemma {:induction false} RemoveDotsFromPrefix(x: string, z: string, out: string)
    requires DotFree(x) && (x == [] || x[0] == '/') && (z == [] || z[0] == '/')
    ensures RemoveDotsFrom(x + z, out) == RemoveDotsFrom(z, out + x)
    decreases |x|
  {
    if x == [] {
      assert x + z == z && out + x == out;
    } else {
      var n := SegmentEnd(x);
      OnlyStepEBeforeSlash(x, z);
      DotFreeAfterSegment(x);
      calc {
        RemoveDotsFrom(x + z, out);
      == { StepE(x + z, out); }
        RemoveDotsFrom((x + z)[n..], out + (x + z)[..n]);
      == { assert (x + z)[..n] == x[..n] && (x + z)[n..] == x[n..] + z; }
        RemoveDotsFrom(x[n..] + z, out + x[..n]);
      == { RemoveDotsFromPrefix(x[n..], z, out + x[..n]); }
        RemoveDotsFrom(z, out + x[..n] + x[n..]);
      == { assert out + x[..n] + x[n..] == out + x; }
        RemoveDotsFrom(z, out + x);
      }
    }
  }

  /** Dropping the last segment of `x/seg` gives `x`. */
  lemma {:induction false} DropSegment(x: string, seg: string)
    requires '/' !in seg
    ensures DropLastSegment(x + "/" + seg) == x
    decreases |seg|
  {
    var p := x + "/" + seg;
    if seg == [] {
      assert p[|p| - 1] == '/' && p[..|p| - 1] == x;
    } else {
      assert p[|p| - 1] == seg[|seg| - 1];
      assert p[..|p| - 1] == x + "/" + seg[..|seg| - 1];
      DropSegment(x, seg[..|seg| - 1]);
    }
  }

  /** A segment other than `.` and `..`, with no `/` in it. */
  predicate PlainSegment(seg: string) {
    seg != [] && '/' !in seg && seg != "." && seg != ".."
  }

  /** Appending `/seg` to a path without dot segments adds none. */
  lemma AppendPlainSegment(x: string, seg: string)
    requires DotFree(x) && PlainSegment(seg)
    ensures DotFree(x + "/" + seg)
  {
    var p := x + "/" + seg;
    assert p == x + ("/" + seg);
    DotSegmentsBeforeSlash(x, "/" + seg);
    forall i | 0 <= i < |p| ensures !DotSegmentAt(p, i) {
      if i == |x| {
        assert p[i] == '/';
      } else if i > |x| {
        NotDotInSegment(x, seg, i - |x| - 1);
      }
    }
  }

  /** No position inside a plain segment starts a dot segment. */
  lemma NotDotInSegment(x: string, seg: string, j: nat)
    requires PlainSegment(seg) && j < |seg|
    ensures !DotSegmentAt(x + "/" + seg, |x| + 1 + j)
  {
    var p := x + "/" + seg;
    var i := |x| + 1 + j;
    assert p[i] == seg[j];
    if j > 0 {
      assert p[i - 1] == seg[j - 1] && seg[j - 1] in seg;
    } else if p[i] == '.' {
      if |seg| > 1 {
        assert p[i + 1] == seg[1] && seg[1] in seg;
        if |seg| == 2 {
          assert seg[1] == '.' ==> seg == "..";
        } else {
          assert p[i + 2] == seg[2] && seg[2] in seg;
        }
      }
    }
  }

  /** Step C: `/..` followed by a new segment or by nothing drops the last output
      segment. */
  lemma DotDotStep(y: string, out: string)
    requires y == [] || y[0] == '/'
    ensures RemoveDotsFrom("/.." + y, out) == RemoveDotsFrom(if y == [] then "/" else y, DropLastSegment(out))
  {
    var z := "/.." + y;
    assert z[0] == '/' && z[1] == '.' && z[2] == '.';
    assert !StartsWith(z, "../") && !StartsWith(z, "./") && !StartsWith(z, "/./") && z != "/.";
    if y == [] {
      assert z == "/.." && !StartsWith(z, "/../");
    } else {
      assert z[..4] == "/../" && z[3..] == y;
    }
  }

  /** Step B: `/.` followed by a new segment or by nothing is dropped. */
  lemma DotStep(y: string, out: string)
    requires y == [] || y[0] == '/'
    ensures RemoveDotsFrom("/." + y, out) == RemoveDotsFrom(if y == [] then "/" else y, out)
  {
    var z := "/." + y;
    assert z[0] == '/' && z[1] == '.';
    assert !StartsWith(z, "../") && !StartsWith(z, "./");
    if y == [] {
      assert z == "/." && !StartsWith(z, "/./");
    } else {
      assert z[..3] == "/./" && z[2..] == y;
    }
  }

  /** A `..` segment cancels the plain segment before it: `x/seg/..y` reads as `xy`,
      or as `x/` when nothing follows. */
  lemma DotDotCancels(x: string, seg: string, y: string)
    requires DotFree(x) && (x == [] || x[0] == '/') && PlainSegment(seg)
    requires y == [] || y[0] == '/'
    ensures RemoveDots(x + "/" + seg + "/.." + y) == RemoveDots(x + (if y == [] then "/" else y))
  {
    var xs := x + "/" + seg;
    var rest := if y == [] then "/" else y;
    AppendPlainSegment(x, seg);
    assert x + "/" + seg + "/.." + y == xs + ("/.." + y);
    RemoveDotsFromPrefix(xs, "/.." + y, []);
    assert [] + xs == xs;
    DotDotStep(y, xs);
    DropSegment(x, seg);
    RemoveDotsFromPrefix(x, rest, []);
    assert [] + x == x;
  }

  /** A `.` segment is dropped: `x/.y` reads as `xy`, or as `x/` when nothing
      follows. */
  lemma DotVanishes(x: string, y: string)
    requires DotFree(x) && (x == [] || x[0] == '/')
    requires y == [] || y[0] == '/'
    ensures RemoveDots(x + "/." + y) == RemoveDots(x + (if y == [] then "/" else y))
  {
    var rest := if y == [] then "/" else y;
    assert x + "/." + y == x + ("/." + y);
    RemoveDotsFromPrefix(x, "/." + y, []);
    assert [] + x == x;
    DotStep(y, x);
    RemoveDotsFromPrefix(x, rest, []);
  }

  /** A path up to and including its last `/`, or empty when it has none. */
  function Directory(path: string): (r: string)
    ensures |r| <= |path| && r == path[..|r|]
    ensures r == [] || r[|r| - 1] == '/'
    ensures forall k :: |r| <= k < |path| ==> path[k] != '/'
    decreases |path|
  {
    if path == [] || path[|path| - 1] == '/' then path else Directory(path[..|path| - 1])
  }

  /** Section 5.2.3: a relative path is taken relative to the base's directory, or to
      the root when the base has an authority and an empty path. */
  function Merge(base: Uri, refPath: string): string {
    if base.authority.Some? && base.path == [] then "/" + refPath
    else Directory(base.path) + refPath
  }

  /** Section 5.2.2, non-strict as `urljoin` is: a reference that repeats the base's
      scheme is treated as if it had none. As in `urljoin`, a reference with a host of
      its own is taken as written, without removing its dot segments; an empty host
      (`///x`) gives way to the base's; and a reference with an empty path keeps the
      base's query unless it brings a non-empty one. */
  function Resolve(base: Uri, reference: Uri): Uri {
    var r := if reference.scheme == base.scheme then reference.(scheme := None) else reference;
    if r.scheme.Some? then
      Uri(r.scheme, r.authority, RemoveDots(r.path), r.query, r.fragment)
    else if r.authority.Some? && r.authority.value != [] then
      Uri(base.scheme, r.authority, r.path, r.query, r.fragment)
    else if r.path == [] then
      Uri(base.scheme, base.authority, base.path,
          if r.query.Some? && r.query.value != [] then r.query else base.query, r.fragment)
    else if r.path[0] == '/' then
      Uri(base.scheme, base.authority, RemoveDots(r.path), r.query, r.fragment)
    else
      Uri(base.scheme, base.authority, RemoveDots(Merge(base, r.path)), r.query, r.fragment)
  }

  /** What `urlunsplit` writes of the components: an empty query or fragment is left
      out together with its `?` or `#`. */
  function Written(u: Uri): (r: Uri)
    ensures r.scheme == u.scheme && r.authority == u.authority && r.path == u.path
    ensures r.query.None? <==> u.query.None? || u.query == Some("")
    ensures r.fragment.None? <==> u.fragment.None? || u.fragment == Some("")
    ensures r.query.Some? ==> r.query == u.query
    ensures r.fragment.Some? ==> r.fragment == u.fragment
    ensures WellFormed(u) ==> WellFormed(r)
  {
    u.(query := if u.query == Some("") then None else u.query,
       fragment := if u.fragment == Some("") then None else u.fragment)
  }

  /** `urljoin(base, reference)`: an empty base gives the reference, an empty reference
      gives the base unchanged, and otherwise the resolved reference is recomposed. */
  function Join(base: string, reference: string): string {
    if base == [] then reference
    else if reference == [] then base
    else Recompose(Written(Resolve(Split(base), Split(reference))))
  }

  /** A reference without scheme or authority keeps the base's scheme and authority
      and its own fragment; its path has no dot segment unless it is the base's. */
  lemma ResolveRelative(base: Uri, reference: Uri)
    requires reference.scheme.None? && reference.authority.None?
    ensures var t := Resolve(base, reference);
      && t.scheme == base.scheme && t.authority == base.authority && t.fragment == reference.fragment
      && (reference.path == [] ==> t.path == base.path)
      && (reference.path != [] && reference.path[0] == '/' ==> t.path == RemoveDots(reference.path))
      && (reference.path != [] && reference.path[0] != '/' ==> t.path == RemoveDots(Merge(base, reference.path)))
      && (reference.path != [] ==> DotFree(t.path))
  {
    var t := Resolve(base, reference);
    RemoveDotsIsDotFree(reference.path);
    if reference.path != [] {
      RemoveDotsIsDotFree(Merge(base, reference.path));
    }
  }

  /** A network-path reference (`//host/...`) keeps only the base's scheme: its host,
      path, query and fragment are taken as written, dot segments included. */
  lemma ResolveNetworkPath(base: Uri, reference: Uri)
    requires reference.scheme.None? && reference.authority.Some? && reference.authority.value != []
    ensures Resolve(base, reference) == reference.(scheme := base.scheme)
  {
  }

  /** A reference with an empty host is read as if it had none, so it takes the
      base's authority. */
  lemma ResolveEmptyHost(base: Uri, reference: Uri)
    requires reference.scheme.None? && reference.authority == Some("")
    ensures Resolve(base, reference) == Resolve(base, reference.(authority := None))
    ensures Resolve(base, reference).authority == base.authority
  {
  }

  lemma MergeWellFormed(base: Uri, refPath: string)
    requires WellFormed(base) && base.authority.Some?
    requires Excludes(refPath, Unsafe + {'?', '#'})
    ensures var m := Merge(base, refPath); m != [] && m[0] == '/' && Excludes(m, Unsafe + {'?', '#'})
  {
    if base.path != [] {
      var d := Directory(base.path);
      assert d[0] == base.path[0];
      ExcludesSlice(base.path, 0, |d|, Unsafe + {'?', '#'});
    }
  }

  /** With a base that has an authority, resolving a reference without a scheme gives
      components that recompose and split back unchanged. */
  lemma ResolveWellFormed(base: Uri, reference: Uri)
    requires WellFormed(base) && WellFormed(reference)
    requires base.authority.Some? && reference.scheme.None?
    ensures WellFormed(Resolve(base, reference))
  {
    var bad := Unsafe + {'?', '#'};
    if reference.authority.Some? && reference.authority.value != [] {
    } else if reference.path != [] && reference.path[0] == '/' {
      RemoveDotsKeeps(reference.path, bad);
    } else if reference.path != [] {
      MergeWellFormed(base, reference.path);
      RemoveDotsKeeps(Merge(base, reference.path), bad);
    }
  }

  /** What `urljoin` returns, split again, is the resolved reference as written, less
      an empty query or fragment. */
  lemma JoinSplitsAsResolved(base: string, reference: string)
    requires base != [] && reference != []
    requires Split(base).authority.Some? && Split(reference).scheme.None?
    ensures Split(Join(base, reference)) == Written(Resolve(Split(base), Split(reference)))
  {
    SplitIsWellFormed(base);
    SplitIsWellFormed(reference);
    ResolveWellFormed(Split(base), Split(reference));
    SplitRecompose(Written(Resolve(Split(base), Split(reference))));
  }

  /** A reference that is no more than an empty fragment or an empty query (`#`, `?`)
      gives the base without its fragment and without an empty query; so a base that
      has neither and is written as `urlunsplit` writes it comes back unchanged. */
  lemma JoinEmptyMarker(base: string, reference: string)
    requires base != [] && reference != []
    requires Split(reference).scheme.None? && Split(reference).authority.None? && Split(reference).path == []
    requires Split(reference).query.None? || Split(reference).query == Some("")
    requires Split(reference).fragment.None? || Split(reference).fragment == Some("")
    ensures Join(base, reference) == Recompose(Written(Split(base).(fragment := None)))
    ensures Recompose(Split(base)) == base && Split(base).fragment.None? && Split(base).query != Some("")
            ==> Join(base, reference) == base
  {
    var b := Split(base);
    assert Resolve(b, Split(reference)) == b.(fragment := Split(reference).fragment);
    assert Written(b.(fragment := Split(reference).fragment)) == Written(b.(fragment := None));
  }

  /** Resolving a reference without a scheme keeps the base's scheme, and the base's
      authority unless the reference brings a non-empty one of its own. */
  lemma ResolveKeepsOrigin(base: Uri, reference: Uri)
    requires reference.scheme.None?
    ensures Resolve(base, reference).scheme == base.scheme
    ensures Resolve(base, reference).authority ==
      if reference.authority.Some? && reference.authority.value != [] then reference.authority else base.authority
  {
  }

  lemma RecomposeNonEmpty(u: Uri)
    requires u.authority.Some?
    ensures Recompose(u) != []
  {
    assert |Hier(u)| >= 2;
  }

  /** Joining a reference without a scheme onto a base with an authority gives a
      non-empty url with the base's scheme, and the base's authority unless the
      reference brings a non-empty one of its own. */
  lemma JoinKeepsScheme(base: string, reference: string)
    requires base != [] && Split(base).authority.Some? && Split(reference).scheme.None?
    ensures Join(base, reference) != []
    ensures Split(Join(base, reference)).scheme == Split(base).scheme
    ensures Split(Join(base, reference)).authority ==
      if Split(reference).authority.Some? && Split(reference).authority.value != [] then Split(reference).authority
      else Split(base).authority
  {
    if reference != [] {
      var b, r := Split(base), Split(reference);
      JoinSplitsAsResolved(base, reference);
      ResolveKeepsOrigin(b, r);
      RecomposeNonEmpty(Written(Resolve(b, r)));
    }
  }
}
