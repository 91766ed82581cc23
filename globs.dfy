/** Gradle's Ant-style file patterns and the include/exclude filter of a copy specification,
    as the JavaScript target's `copy { from(...) { exclude(...) } }` blocks use them. */
module Globs {
  import opened Text

  /** A path relative to the root of a copied tree, as its segments: `a/b/c.js` is
      `["a", "b", "c.js"]`. */
  type RelPath = seq<string>

  // A pattern, split on `/` the same way: `**/*.js` is `["**", "*.js"]`.
  type Glob = seq<string>

  /** One path segment against one pattern segment: `*` stands for any run of characters
      (none included), `?` for exactly one. */
  predicate SegmentMatches(p: string, s: string)
    decreases |p| + |s|
  {
    if p == [] then s == []
    else if p[0] == '*' then SegmentMatches(p[1..], s) || (s != [] && SegmentMatches(p, s[1..]))
    else s != [] && (p[0] == '?' || p[0] == s[0]) && SegmentMatches(p[1..], s[1..])
  }

  /** A path against a pattern: a `**` segment stands for any number of directories, none
      included; every other pattern segment matches exactly one path segment. */
  predicate GlobMatches(g: Glob, path: RelPath)
    decreases |g| + |path|
  {
    if g == [] then path == []
    else if g[0] == "**" then GlobMatches(g[1..], path) || (path != [] && GlobMatches(g, path[1..]))
    else path != [] && SegmentMatches(g[0], path[0]) && GlobMatches(g[1..], path[1..])
  }

  /** A pattern segment without wildcards. */
  predicate Literal(s: string) {
    '*' !in s && '?' !in s
  }

  // `**/*<suffix>`: a file whose name ends with `suffix`, in any directory.
  function AnySuffix(suffix: string): Glob {
    ["**", "*" + suffix]
  }

  // `**/<name>`: a file called `name`, in any directory.
  function AnyNamed(name: string): Glob {
    ["**", name]
  }

  /** The file name: the last segment. */
  function FileName(path: RelPath): string
    requires path != []
  {
    path[|path| - 1]
  }

  /** A literal pattern segment matches itself and nothing else. */
  lemma {:induction false} LiteralSegment(p: string, s: string)
    requires Literal(p)
    ensures SegmentMatches(p, s) <==> s == p
    decreases |p|
  {
    if p != [] && s != [] {
      assert p[0] in p;
      assert Literal(p[1..]) by {
        assert forall c :: c in p[1..] ==> c in p;
      }
      LiteralSegment(p[1..], s[1..]);
      if s == p {
        assert s[1..] == p[1..];
      }
    }
  }

  /** `*<suffix>` matches exactly the segments that end with `suffix`. */
  lemma {:induction false} StarSuffixSegment(suffix: string, s: string)
    requires Literal(suffix)
    ensures SegmentMatches("*" + suffix, s) <==> EndsWith(s, suffix)
    decreases |s|
  {
    var p := "*" + suffix;
    assert p[0] == '*' && p[1..] == suffix;
    LiteralSegment(suffix, s);
    if s != [] {
      StarSuffixSegment(suffix, s[1..]);
      if |s| > |suffix| {
        assert s[1..][|s| - 1 - |suffix|..] == s[|s| - |suffix|..];
      }
    }
  }

  // `**/q`, for a segment pattern `q` other than `**`, matches exactly the paths whose
  // last segment `q` matches.
  lemma {:induction false} AnyDepth(q: string, path: RelPath)
    requires q != "**"
    ensures GlobMatches(["**", q], path) <==> path != [] && SegmentMatches(q, FileName(path))
    decreases |path|
  {
    var g: Glob := ["**", q];
    assert g[1..] == [q] && [q][1..] == [];
    assert !GlobMatches([q], []);
    if path != [] {
      AnyDepth(q, path[1..]);
      assert GlobMatches([q], path) <==> |path| == 1 && SegmentMatches(q, path[0]);
      if |path| > 1 {
        assert FileName(path[1..]) == FileName(path);
      }
    }
  }

  // The suffix patterns of the copy specifications: `**/*<suffix>` selects the files
  // whose name ends with `suffix`, at any depth.
  lemma SuffixGlob(suffix: string, path: RelPath)
    requires Literal(suffix)
    ensures GlobMatches(AnySuffix(suffix), path) <==> path != [] && EndsWith(FileName(path), suffix)
  {
    var q := "*" + suffix;
    assert q[0] == '*' && q[1..] == suffix;
    if |suffix| > 0 { assert suffix[0] in suffix; }
    AnyDepth(q, path);
    if path != [] {
      StarSuffixSegment(suffix, FileName(path));
    }
  }

  // `**/<name>` selects the files called `name`, at any depth.
  lemma NameGlob(name: string, path: RelPath)
    requires Literal(name) && name != "**"
    ensures GlobMatches(AnyNamed(name), path) <==> path != [] && FileName(path) == name
  {
    AnyDepth(name, path);
    if path != [] {
      LiteralSegment(name, FileName(path));
    }
  }

  // ---------------------------------------------------------------------------------
  // The filter of one `from(...) { ... }` block

  /** The patterns of a `PatternSet`: `include(...)` and `exclude(...)`. */
  datatype Filter = Filter(includes: seq<Glob>, excludes: seq<Glob>)

  predicate MatchesAny(gs: seq<Glob>, path: RelPath) {
    exists k :: 0 <= k < |gs| && GlobMatches(gs[k], path)
  }

  /** A file is copied when it matches one of the includes (or there are none) and none of
      the excludes. */
  predicate Passes(f: Filter, path: RelPath) {
    (f.includes == [] || MatchesAny(f.includes, path)) && !MatchesAny(f.excludes, path)
  }
}
