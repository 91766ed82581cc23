/** The `jsWebMinWebpack` task: the copy of the minimized bundle into the webpack folder,
    the name of the bundle's entry script (`getProjectAscendants`, `fullJsName`) and the
    rewrite of `index.html` that loads the webpack bundle instead of require.js. */
module Webpack {
  import opened Text
  import opened Regex
  import opened Globs

  // ---------------------------------------------------------------------------------
  // The project hierarchy (lines 373-384)

  /** A Gradle project: its name and its parent, `null` for the root project. */
  class Project {
    const name: string
    const parent: Project?
    /** The parent, its parent, and so on up to the root. */
    ghost const ancestors: seq<Project>

    ghost predicate Valid()
      decreases |ancestors|
    {
      (parent == null ==> ancestors == []) &&
      (parent != null ==> ancestors == [parent] + parent.ancestors && parent.Valid())
    }

    constructor Root(name: string)
      ensures Valid() && this.name == name && parent == null
    {
      this.name := name;
      parent := null;
      ancestors := [];
    }

    constructor Child(name: string, parent: Project)
      requires parent.Valid()
      ensures Valid() && this.name == name && this.parent == parent
    {
      this.name := name;
      this.parent := parent;
      ancestors := [parent] + parent.ancestors;
    }
  }

  /** A project followed by its ancestors, the project itself first. */
  ghost function Chain(p: Project): seq<Project> {
    [p] + p.ancestors
  }

  /** Along the chain each project is followed by its parent, and it ends at the root. */
  lemma {:induction false} ChainLinks(p: Project)
    requires p.Valid()
    ensures var c := Chain(p);
            c[|c| - 1].parent == null &&
            forall k :: 0 <= k < |c| - 1 ==> c[k + 1] == c[k].parent
    decreases |p.ancestors|
  {
    if p.parent != null {
      ChainLinks(p.parent);
      var c := Chain(p);
      assert c == [p] + Chain(p.parent);
      forall k | 1 <= k < |c| - 1 ensures c[k + 1] == c[k].parent {
        assert c[k] == Chain(p.parent)[k - 1] && c[k + 1] == Chain(p.parent)[k];
      }
    }
  }

  /** `getProjectAscendants`: the project, its parent, and so on up to the root. */
  method GetProjectAscendants(project: Project) returns (projects: seq<Project>)
    requires project.Valid()
    ensures projects == Chain(project)
    ensures projects[0] == project && projects[|projects| - 1].parent == null
    ensures forall k :: 0 <= k < |projects| - 1 ==> projects[k + 1] == projects[k].parent
  {
    projects := [];
    var cproject: Project? := project;
    while cproject != null
      invariant cproject != null ==> cproject.Valid() && projects + Chain(cproject) == Chain(project)
      invariant cproject == null ==> projects == Chain(project)
      decreases if cproject == null then 0 else |cproject.ancestors| + 1
    {
      assert Chain(cproject) == [cproject] + cproject.ancestors;
      if cproject.parent != null {
        assert cproject.ancestors == Chain(cproject.parent);
      }
      projects := projects + [cproject];
      cproject := cproject.parent;
    }
    ChainLinks(project);
  }

  function Reverse<T>(s: seq<T>): (r: seq<T>)
    ensures |r| == |s| && forall k :: 0 <= k < |s| ==> r[k] == s[|s| - 1 - k]
  {
    if s == [] then [] else Reverse(s[1..]) + [s[0]]
  }

  /** `map { it.name }` */
  function Names(ps: seq<Project>): (r: seq<string>)
    ensures |r| == |ps| && forall k :: 0 <= k < |ps| ==> r[k] == ps[k].name
  {
    if ps == [] then [] else [ps[0].name] + Names(ps[1..])
  }

  /** The reference reading of the entry name: the parent's name, a dash, and the
      project's own name; the root's name alone at the top. */
  ghost function QualifiedName(p: Project): string
    requires p.Valid()
    decreases |p.ancestors|
  {
    if p.parent == null then p.name else QualifiedName(p.parent) + "-" + p.name
  }

  /** `fullJsName`: the names from the root down to the project, joined with dashes. */
  method FullJsName(project: Project) returns (name: string)
    requires project.Valid()
    ensures name == QualifiedName(project)
  {
    var projects := GetProjectAscendants(project);
    name := Join(Names(Reverse(projects)), "-");
    JoinedNames(project);
  }

  lemma {:induction false} JoinedNames(p: Project)
    requires p.Valid()
    ensures Join(Names(Reverse(Chain(p))), "-") == QualifiedName(p)
    decreases |p.ancestors|
  {
    if p.parent == null {
      assert Chain(p) == [p];
      assert Names(Reverse(Chain(p))) == [p.name];
    } else {
      var up := Names(Reverse(Chain(p.parent)));
      JoinedNames(p.parent);
      assert Chain(p) == [p] + Chain(p.parent);
      assert Names(Reverse(Chain(p))) == up + [p.name];
      JoinSnoc(up, p.name, "-");
    }
  }

  lemma JoinSnoc(xs: seq<string>, x: string, d: string)
    requires |xs| >= 1
    ensures Join(xs + [x], d) == Join(xs, d) + d + x
    decreases |xs|
  {
    if |xs| == 1 {
      assert (xs + [x])[1..] == [x];
    } else {
      assert (xs + [x])[1..] == xs[1..] + [x];
      JoinSnoc(xs[1..], x, d);
    }
  }

  /** When no project name holds a dash, the entry name can be split back into the
      names of the hierarchy, root first. */
  lemma QualifiedNameSplits(p: Project)
    requires p.Valid()
    requires forall q :: q in Chain(p) ==> '-' !in q.name
    ensures Split(QualifiedName(p), "-") == Names(Reverse(Chain(p)))
  {
    var names := Names(Reverse(Chain(p)));
    forall k | 0 <= k < |names| ensures '-' !in names[k] {
      assert names[k] == Reverse(Chain(p))[k].name;
      assert Reverse(Chain(p))[k] in Chain(p);
    }
    JoinedNames(p);
    SplitJoin(names, '-');
  }

  // ---------------------------------------------------------------------------------
  // The copy into the webpack folder (lines 365-369)

  const WebpackExcludes: seq<Glob> := [AnySuffix(".js"), AnyNamed("index.template.html"), AnyNamed("index.html")]

  /** The files of the minimized bundle that are copied into the webpack folder. */
  function WebpackCopy(files: seq<RelPath>): set<RelPath> {
    set p | p in files && Passes(Filter([], WebpackExcludes), p)
  }

  /** Scripts are left to webpack to bundle, and both index pages are left out; every
      other file of the minimized bundle is copied. */
  lemma WebpackCopyNames(files: seq<RelPath>, path: RelPath)
    requires path != []
    ensures path in WebpackCopy(files) <==>
            path in files && !EndsWith(FileName(path), ".js") &&
            FileName(path) != "index.template.html" && FileName(path) != "index.html"
  {
    assert Literal(".js");
    assert Literal("index.template.html") by {
      assert forall c :: c in "index.template.html" ==> c != '*' && c != '?';
    }
    assert Literal("index.html") by {
      assert forall c :: c in "index.html" ==> c != '*' && c != '?';
    }
    SuffixGlob(".js", path);
    NameGlob("index.template.html", path);
    NameGlob("index.html", path);
    if MatchesAny(WebpackExcludes, path) {
      var k :| 0 <= k < |WebpackExcludes| && GlobMatches(WebpackExcludes[k], path);
      assert k == 0 || k == 1 || k == 2;
    }
    if EndsWith(FileName(path), ".js") {
      assert GlobMatches(WebpackExcludes[0], path);
    }
    if FileName(path) == "index.template.html" {
      assert GlobMatches(WebpackExcludes[1], path);
    }
    if FileName(path) == "index.html" {
      assert GlobMatches(WebpackExcludes[2], path);
    }
  }

  /** The exclude names the older index template: the `index.v2.template.html` that
      `jsWeb` reads does reach the webpack folder when the bundle holds one. */
  lemma V2TemplateCopied(files: seq<RelPath>)
    requires ["index.v2.template.html"] in files
    ensures ["index.v2.template.html"] in WebpackCopy(files)
  {
    var path := ["index.v2.template.html"];
    WebpackCopyNames(files, path);
    var n := FileName(path);
    assert n[|n| - 1] == 'l';
  }

  // ---------------------------------------------------------------------------------
  // The index.html rewrite (line 410)

  /** The literal text of the pattern around its group. */
  const TagOpen: string := "<script data-main=\""
  const TagClose: string := "\" src=\"require" + ".min.js\"" + " type=\"text/javascript\">" + "</script>"

  /** The replacement: a script tag that loads the webpack bundle. */
  const BundleTag: string := "<script src=\"bundle.js\" type=\"text/javascript\"></script>"

  /** Pattern text without metacharacters other than `.`: each `.` is the any-character
      atom, every other character a literal. */
  function LiteralTokens(s: string): (r: seq<Token>)
    ensures |r| == |s|
    ensures forall k :: 0 <= k < |s| ==> r[k] == if s[k] == '.' then AnyChar else Lit(s[k])
  {
    if s == [] then [] else [if s[0] == '.' then AnyChar else Lit(s[0])] + LiteralTokens(s[1..])
  }

  /** `open(.*?)close`, case-sensitive. */
  function TagPattern(open: string, close: string): Pattern {
    Pattern([LiteralTokens(open) + [LazyAnyStar] + LiteralTokens(close)], false)
  }

  /** The compiled pattern: the unescaped dots of `require.min.js` stay wildcards, the
      group `(.*?)` is a reluctant run, and the match is case-sensitive. */
  const ScriptTagPattern: Pattern := TagPattern(TagOpen, TagClose)

  /** The rewrite of the minimized bundle's index page for the webpack folder. The source
      calls `String.replace(Regex, String)`, that is `Matcher.replaceAll`; it is modelled by
      the same replace loop as the runtime patcher. The two agree here because the tag
      pattern never matches the empty string (it starts with literal text) and the bundle
      tag holds no `$` or `\`, so `replaceAll` inserts it verbatim. */
  function RewriteIndexHtml(html: string): (r: string)
    ensures NoMatchIn(ScriptTagPattern, html, 0, |html| + 1) ==> r == html
  {
    Replace(ScriptTagPattern, html, ToBundle)
  }

  /** Every match is replaced by the bundle tag. */
  function ToBundle(matched: string): string {
    BundleTag
  }

  /** Text that pattern text `s` accepts character by character: a `.` takes any
      character but a line terminator, anything else takes itself. */
  predicate Fits(s: string, t: string) {
    |s| == |t| && forall k :: 0 <= k < |s| ==> if s[k] == '.' then !IsLineTerminator(t[k]) else t[k] == s[k]
  }

  /** The opening text: no wildcard, a `<` first and nowhere else, so that two occurrences
      cannot overlap. */
  predicate OpenShape(open: string) {
    |open| >= 1 && open[0] == '<' && '.' !in open && forall k :: 0 < k < |open| ==> open[k] != '<'
  }

  /** The closing text starts with the quote that ends the attribute. */
  predicate CloseShape(close: string) {
    |close| >= 1 && close[0] == '"'
  }

  lemma {:induction false} LiteralTokensMatch(s: string, t: string, b: Branch, w: string, i: nat)
    requires Fits(s, t) && i + |t| <= |w| && w[i..i + |t|] == t
    ensures MatchBranch(LiteralTokens(s) + b, w, i, false) == MatchBranch(b, w, i + |t|, false)
    decreases |s|
  {
    if s != [] {
      var toks := LiteralTokens(s) + b;
      assert toks[0] == (if s[0] == '.' then AnyChar else Lit(s[0]));
      assert toks[1..] == LiteralTokens(s[1..]) + b;
      assert w[i] == w[i..i + |t|][0] == t[0];
      assert if s[0] == '.' then !IsLineTerminator(w[i]) else LitAccepts(s[0], w[i], false);
      assert Fits(s[1..], t[1..]) by {
        forall k | 0 <= k < |s| - 1 ensures if s[1..][k] == '.' then !IsLineTerminator(t[1..][k]) else t[1..][k] == s[1..][k] {
          assert s[1..][k] == s[k + 1] && t[1..][k] == t[k + 1];
        }
      }
      assert w[i + 1..i + 1 + |t[1..]|] == t[1..];
      LiteralTokensMatch(s[1..], t[1..], b, w, i + 1);
      assert MatchBranch(toks, w, i, false) == MatchBranch(toks[1..], w, i + 1, false);
    } else {
      assert LiteralTokens(s) + b == b;
    }
  }

  /** Without dots, a match of the literal part needs the literal text. */
  lemma {:induction false} LiteralTokensNeedText(s: string, b: Branch, w: string, i: nat)
    requires '.' !in s && i <= |w|
    requires MatchBranch(LiteralTokens(s) + b, w, i, false).Some?
    ensures OccursAt(w, s, i)
    decreases |s|
  {
    if s != [] {
      var toks := LiteralTokens(s) + b;
      assert toks[0] == Lit(s[0]);
      assert toks[1..] == LiteralTokens(s[1..]) + b;
      assert '.' !in s[1..] by { assert forall c :: c in s[1..] ==> c in s; }
      LiteralTokensNeedText(s[1..], b, w, i + 1);
      assert w[i..i + |s|] == [w[i]] + w[i + 1..i + 1 + |s[1..]|];
    }
  }

  /** The reluctant run stops at the first place where the rest of the branch matches. */
  lemma {:induction false} LazyStops(b: Branch, w: string, i: nat, e: nat)
    requires i <= e <= |w|
    requires forall j :: i <= j < e ==> !IsLineTerminator(w[j]) && MatchBranch(b, w, j, false).None?
    requires MatchBranch(b, w, e, false).Some?
    ensures MatchBranch([LazyAnyStar] + b, w, i, false) == MatchBranch(b, w, e, false)
    decreases e - i
  {
    assert ([LazyAnyStar] + b)[1..] == b;
    if i < e {
      LazyStops(b, w, i + 1, e);
    }
  }

  /** Where the text does not start with the closing quote, the closing part cannot match. */
  lemma CloseNeedsQuote(close: string, w: string, j: nat)
    requires CloseShape(close) && j <= |w| && (j == |w| || w[j] != '"')
    ensures MatchBranch(LiteralTokens(close), w, j, false).None?
  {
    var toks := LiteralTokens(close);
    assert toks[0] == Lit('"');
  }

  /** A match of the pattern starts with the opening text. */
  lemma MatchNeedsOpen(open: string, close: string, w: string, i: nat)
    requires OpenShape(open) && i <= |w|
    ensures MatchAt(TagPattern(open, close), w, i).Some? ==> OccursAt(w, open, i)
  {
    var b := LiteralTokens(open) + [LazyAnyStar] + LiteralTokens(close);
    assert TagPattern(open, close).alternatives == [b];
    assert b == LiteralTokens(open) + ([LazyAnyStar] + LiteralTokens(close));
    if MatchAt(TagPattern(open, close), w, i).Some? {
      LiteralTokensNeedText(open, [LazyAnyStar] + LiteralTokens(close), w, i);
    }
  }

  /** The tag, with its attribute free of quotes and line breaks, is one match. */
  lemma TagMatches(open: string, close: string, pre: string, main: string, t: string, post: string)
    requires OpenShape(open) && CloseShape(close) && Fits(close, t)
    requires '"' !in main && forall k :: 0 <= k < |main| ==> !IsLineTerminator(main[k])
    ensures var w := pre + open + main + t + post;
            MatchAt(TagPattern(open, close), w, |pre|) == Some(|pre| + |open + main + t|)
  {
    var w := pre + open + main + t + post;
    var s := |pre| + |open|;
    var e := s + |main|;
    var b := LiteralTokens(open) + [LazyAnyStar] + LiteralTokens(close);
    assert TagPattern(open, close).alternatives == [b];
    assert b == LiteralTokens(open) + ([LazyAnyStar] + LiteralTokens(close));
    assert w[|pre|..s] == open;
    assert Fits(open, open);
    LiteralTokensMatch(open, open, [LazyAnyStar] + LiteralTokens(close), w, |pre|);
    assert w[e..e + |t|] == t;
    LiteralTokensMatch(close, t, [], w, e);
    assert LiteralTokens(close) + [] == LiteralTokens(close);
    forall j | s <= j < e ensures !IsLineTerminator(w[j]) && MatchBranch(LiteralTokens(close), w, j, false).None? {
      assert w[j] == main[j - s];
      assert main[j - s] in main;
      CloseNeedsQuote(close, w, j);
    }
    LazyStops(LiteralTokens(close), w, s, e);
  }

  /** The opening text cannot occur where a `<` lies strictly inside the occurrence. */
  lemma NoStraddle(open: string, w: string, i: nat, j: nat)
    requires OpenShape(open) && i < j < i + |open| && j < |w| && w[j] == '<'
    ensures !OccursAt(w, open, i)
  {
    assert open[j - i] != '<';
  }

  /** No match starts before the tag: `pre` holds no opening text, and an occurrence
      reaching into the tag would need a second `<` inside it. */
  lemma NoMatchBeforeTag(open: string, close: string, pre: string, rest: string)
    requires OpenShape(open) && !Contains(pre, open) && StartsWith(rest, open)
    ensures NoMatchIn(TagPattern(open, close), pre + rest, 0, |pre|)
  {
    var w := pre + rest;
    forall i: nat | i < |pre| ensures MatchAt(TagPattern(open, close), w, i).None? {
      MatchNeedsOpen(open, close, w, i);
      if i + |open| <= |pre| {
        assert w[i..i + |open|] == pre[i..i + |open|];
        assert !OccursAt(pre, open, i);
      } else {
        assert w[|pre|] == '<';
        NoStraddle(open, w, i, |pre|);
      }
    }
  }

  /** No match starts in `post` when it holds no opening text. */
  lemma NoMatchAfter(open: string, close: string, head: string, post: string)
    requires OpenShape(open) && !Contains(post, open)
    ensures NoMatchIn(TagPattern(open, close), head + post, |head|, |head + post| + 1)
  {
    var w := head + post;
    forall j: nat | |head| <= j <= |w| ensures MatchAt(TagPattern(open, close), w, j).None? {
      MatchNeedsOpen(open, close, w, j);
      if j + |open| <= |w| {
        assert w[j..j + |open|] == post[j - |head|..j - |head| + |open|];
        assert !OccursAt(post, open, j - |head|);
      }
    }
  }

  /** The first match in the page is the tag. */
  lemma FindsTag(open: string, close: string, pre: string, main: string, t: string, post: string)
    requires OpenShape(open) && CloseShape(close) && Fits(close, t)
    requires !Contains(pre, open)
    requires '"' !in main && forall k :: 0 <= k < |main| ==> !IsLineTerminator(main[k])
    ensures var w := pre + (open + main + t) + post;
            Find(TagPattern(open, close), w, 0) == Some(Span(|pre|, |pre| + |open + main + t|))
  {
    var tag := open + main + t;
    var w := pre + tag + post;
    assert pre + open + main + t + post == w;
    TagMatches(open, close, pre, main, t, post);
    assert w == pre + (tag + post);
    assert StartsWith(tag + post, open) by { assert (tag + post)[..|open|] == open; }
    NoMatchBeforeTag(open, close, pre, tag + post);
  }

  /** A page with one such tag: the tag is replaced and nothing else changes. */
  lemma TagReplaced(open: string, close: string, pre: string, main: string, t: string, post: string, f: string -> string)
    requires OpenShape(open) && CloseShape(close) && Fits(close, t)
    requires !Contains(pre, open) && !Contains(post, open)
    requires '"' !in main && forall k :: 0 <= k < |main| ==> !IsLineTerminator(main[k])
    ensures var tag := open + main + t;
            Replace(TagPattern(open, close), pre + tag + post, f) == pre + f(tag) + post
  {
    var p := TagPattern(open, close);
    var tag := open + main + t;
    var w := pre + tag + post;
    var m := Span(|pre|, |pre| + |tag|);
    FindsTag(open, close, pre, main, t, post);
    assert w == (pre + tag) + post;
    NoMatchAfter(open, close, pre + tag, post);
    assert MatchesFrom(p, w, m) == [m] by {
      if m.end < |w| {
        assert Find(p, w, NextFrom(m)).None?;
      }
    }
    assert w[..|pre|] == pre && w[m.start..m.end] == tag && w[m.end..] == post;
    assert Splice(w, [m], f, 0) == pre + f(tag) + post;
  }

  lemma FitsAppend(s1: string, t1: string, s2: string, t2: string)
    requires Fits(s1, t1) && Fits(s2, t2)
    ensures Fits(s1 + s2, t1 + t2)
  {
    forall k | 0 <= k < |s1 + s2|
      ensures if (s1 + s2)[k] == '.' then !IsLineTerminator((t1 + t2)[k]) else (t1 + t2)[k] == (s1 + s2)[k]
    {
      if k >= |s1| {
        assert (s1 + s2)[k] == s2[k - |s1|] && (t1 + t2)[k] == t2[k - |s1|];
      }
    }
  }

  lemma ScriptTagShape()
    ensures OpenShape(TagOpen) && CloseShape(TagClose)
  {
  }

  /** A require.js loader tag as the pattern reads it: `main` in the data-main attribute,
      and a closing part that fits `TagClose`. */
  function LoaderTag(main: string, close: string): string {
    TagOpen + main + close
  }

  /** A page with one require.js loader tag loads the webpack bundle instead, and nothing
      else of the page changes. The closing part need only fit `TagClose`. */
  lemma LoaderTagReplaced(pre: string, main: string, close: string, post: string)
    requires !Contains(pre, TagOpen) && !Contains(post, TagOpen)
    requires Fits(TagClose, close)
    requires '"' !in main && forall k :: 0 <= k < |main| ==> !IsLineTerminator(main[k])
    ensures RewriteIndexHtml(pre + LoaderTag(main, close) + post) == pre + BundleTag + post
  {
    ScriptTagShape();
    TagReplaced(TagOpen, TagClose, pre, main, close, post, ToBundle);
  }

  /** The closing part of a tag that loads `require-min-js` instead of `require.min.js`. */
  const DashedClose: string := "\" src=\"require" + "-min-js\"" + " type=\"text/javascript\">" + "</script>"

  /** The dots of `require.min.js` are wildcards: a loader called `require-min-js` is
      replaced as well. */
  lemma DotsAreWildcards(pre: string, main: string, post: string)
    requires !Contains(pre, TagOpen) && !Contains(post, TagOpen)
    requires '"' !in main && forall k :: 0 <= k < |main| ==> !IsLineTerminator(main[k])
    ensures RewriteIndexHtml(pre + LoaderTag(main, DashedClose) + post) ==
            pre + BundleTag + post
  {
    var close := DashedClose;
    assert Fits("\" src=\"require", "\" src=\"require");
    assert Fits(".min.js\"", "-min-js\"");
    assert Fits(" type=\"text/javascript\">", " type=\"text/javascript\">");
    assert Fits("</script>", "</script>");
    FitsAppend("\" src=\"require", "\" src=\"require", ".min.js\"", "-min-js\"");
    FitsAppend("\" src=\"require" + ".min.js\"", "\" src=\"require" + "-min-js\"",
               " type=\"text/javascript\">", " type=\"text/javascript\">");
    FitsAppend("\" src=\"require" + ".min.js\"" + " type=\"text/javascript\">",
               "\" src=\"require" + "-min-js\"" + " type=\"text/javascript\">", "</script>", "</script>");
    LoaderTagReplaced(pre, main, close, post);
  }

  /** A page without a loader tag is copied unchanged. */
  lemma NoLoaderUnchanged(html: string)
    requires !Contains(html, TagOpen)
    ensures RewriteIndexHtml(html) == html
  {
    ScriptTagShape();
    assert html == [] + html;
    NoMatchAfter(TagOpen, TagClose, [], html);
  }
}
