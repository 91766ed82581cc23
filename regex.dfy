/** The part of `java.util.regex` that the JavaScript target's two patterns use, with the
    backtracking order of `Matcher.find`, and Kotlin's `Regex.replace` loop on top of it. */
module Regex {
  import opened Text

  /** One atom of a branch. The only quantifiers the target's patterns use are a greedy
      `\s*` and a reluctant `.*?`, both over a single character class. */
  datatype Token =
    | Lit(c: char)     // a literal character
    | AnyChar          // `.`: any character except a line terminator
    | SpaceStar        // `\s*`
    | LazyAnyStar      // `.*?`

  type Branch = seq<Token>

  /** A compiled pattern: its `|`-separated alternatives, tried in order, and whether
      `RegexOption.IGNORE_CASE` is set. */
  datatype Pattern = Pattern(alternatives: seq<Branch>, ignoreCase: bool)

  /** A match occupies `text[start..end]`. */
  datatype Span = Span(start: nat, end: nat)

  /** `\s` without UNICODE_CHARACTER_CLASS: one of ' ', '\t', '\n', '\x0B', '\f', '\r'. */
  predicate IsRegexSpace(c: char) {
    c == ' ' || ('\t' <= c <= '\r')
  }

  /** The characters `.` does not match when DOTALL is off. */
  predicate IsLineTerminator(c: char) {
    c == '\n' || c == '\r' || c as int == 0x85 || c as int == 0x2028 || c as int == 0x2029
  }

  function AsciiLower(c: char): char {
    if 'A' <= c <= 'Z' then (c as int + 32) as char else c
  }

  /** A literal `c` in the pattern accepts `t` in the text. Case-insensitive matching folds
      'A'..'Z' only. Kotlin's IGNORE_CASE is Unicode-aware (it adds UNICODE_CASE), so text
      that differs from the pattern only in the case of a non-ASCII letter is accepted by
      the JVM matcher and not here. */
  predicate LitAccepts(c: char, t: char, ignoreCase: bool) {
    if ignoreCase then AsciiLower(t) == AsciiLower(c) else t == c
  }

  /** Where a match of branch `b` that starts at `i` ends, trying the choices in the order
      the backtracking matcher tries them: `\s*` as many spaces as possible first, `.*?` as
      few characters as possible first. */
  function MatchBranch(b: Branch, text: string, i: nat, ignoreCase: bool): (r: Option<nat>)
    requires i <= |text|
    decreases |b|, |text| - i
    ensures r.Some? ==> i <= r.value <= |text|
  {
    if b == [] then Some(i)
    else match b[0]
      case Lit(c) =>
        if i < |text| && LitAccepts(c, text[i], ignoreCase) then MatchBranch(b[1..], text, i + 1, ignoreCase)
        else None
      case AnyChar =>
        if i < |text| && !IsLineTerminator(text[i]) then MatchBranch(b[1..], text, i + 1, ignoreCase)
        else None
      case SpaceStar =>
        var longer := if i < |text| && IsRegexSpace(text[i]) then MatchBranch(b, text, i + 1, ignoreCase) else None;
        if longer.Some? then longer else MatchBranch(b[1..], text, i, ignoreCase)
      case LazyAnyStar =>
        var here := MatchBranch(b[1..], text, i, ignoreCase);
        if here.Some? then here
        else if i < |text| && !IsLineTerminator(text[i]) then MatchBranch(b, text, i + 1, ignoreCase)
        else None
  }

  /** The first alternative that matches at `i` decides the match. */
  function MatchAlternatives(alts: seq<Branch>, text: string, i: nat, ignoreCase: bool): (r: Option<nat>)
    requires i <= |text|
    ensures r.Some? ==> i <= r.value <= |text|
    ensures r.Some? <==> exists k :: 0 <= k < |alts| && MatchBranch(alts[k], text, i, ignoreCase).Some?
  {
    if alts == [] then None
    else
      var r := MatchBranch(alts[0], text, i, ignoreCase);
      if r.Some? then r else MatchAlternatives(alts[1..], text, i, ignoreCase)
  }

  function MatchAt(p: Pattern, text: string, i: nat): (r: Option<nat>)
    requires i <= |text|
  {
    MatchAlternatives(p.alternatives, text, i, p.ignoreCase)
  }

  predicate NoMatchIn(p: Pattern, text: string, lo: nat, hi: nat) {
    forall i: nat :: lo <= i < hi && i <= |text| ==> MatchAt(p, text, i).None?
  }

  predicate IsMatch(p: Pattern, text: string, m: Span) {
    m.start <= m.end <= |text| && MatchAt(p, text, m.start) == Some(m.end)
  }

  /** `Matcher.find(from)`: the leftmost match starting at or after `from`. */
  function Find(p: Pattern, text: string, from: nat): (r: Option<Span>)
    requires from <= |text|
    decreases |text| - from
    ensures r.Some? ==> from <= r.value.start && IsMatch(p, text, r.value)
    ensures r.Some? ==> NoMatchIn(p, text, from, r.value.start)
    ensures r.None? ==> NoMatchIn(p, text, from, |text| + 1)
  {
    match MatchAt(p, text, from)
    case Some(e) => Some(Span(from, e))
    case None => if from == |text| then None else Find(p, text, from + 1)
  }

  /** Where `MatchResult.next()` resumes: after the match, one further on for an empty one. */
  function NextFrom(m: Span): nat {
    if m.end == m.start then m.end + 1 else m.end
  }

  /** The spans lie in order between `from` and `n`, none overlapping the next. */
  predicate Sorted(spans: seq<Span>, from: nat, n: nat)
    decreases |spans|
  {
    if spans == [] then from <= n
    else from <= spans[0].start <= spans[0].end <= n && Sorted(spans[1..], spans[0].end, n)
  }

  /** The matches Kotlin's `replace` visits, starting from the match `m`: each is a match,
      each is the leftmost one at or after where the previous one ends, and the chain stops
      only once a match reaches the end of the text or no further match exists. */
  ghost predicate IsReplaceChain(p: Pattern, text: string, r: seq<Span>) {
    (forall k :: 0 <= k < |r| ==> IsMatch(p, text, r[k])) &&
    (forall k :: 0 <= k < |r| - 1 ==>
       r[k].end < |text| && NextFrom(r[k]) <= r[k + 1].start && NoMatchIn(p, text, NextFrom(r[k]), r[k + 1].start)) &&
    (|r| > 0 ==> r[|r| - 1].end == |text| || NoMatchIn(p, text, NextFrom(r[|r| - 1]), |text| + 1))
  }

  function MatchesFrom(p: Pattern, text: string, m: Span): (r: seq<Span>)
    requires IsMatch(p, text, m)
    decreases |text| - m.start
    ensures |r| >= 1 && r[0] == m
    ensures Sorted(r, m.start, |text|)
    ensures IsReplaceChain(p, text, r)
  {
    if m.end < |text| then
      match Find(p, text, NextFrom(m))
      case None => [m]
      case Some(m') =>
        var rest := MatchesFrom(p, text, m');
        ChainCons(p, text, m, rest);
        [m] + rest
    else [m]
  }

  lemma ChainCons(p: Pattern, text: string, m: Span, rest: seq<Span>)
    requires IsMatch(p, text, m) && m.end < |text|
    requires |rest| >= 1 && NextFrom(m) <= rest[0].start
    requires NoMatchIn(p, text, NextFrom(m), rest[0].start)
    requires Sorted(rest, rest[0].start, |text|) && IsReplaceChain(p, text, rest)
    ensures Sorted([m] + rest, m.start, |text|)
    ensures IsReplaceChain(p, text, [m] + rest)
  {
    var r := [m] + rest;
    assert r[1..] == rest;
    assert Sorted(r, m.start, |text|) by {
      SortedFrom(rest, rest[0].start, m.end, |text|);
    }
    forall k | 0 <= k < |r| ensures IsMatch(p, text, r[k]) {
      if k > 0 { assert r[k] == rest[k - 1]; }
    }
    forall k | 0 <= k < |r| - 1
      ensures r[k].end < |text| && NextFrom(r[k]) <= r[k + 1].start && NoMatchIn(p, text, NextFrom(r[k]), r[k + 1].start)
    {
      if k > 0 { assert r[k] == rest[k - 1] && r[k + 1] == rest[k]; }
    }
    assert r[|r| - 1] == rest[|rest| - 1];
  }

  /** Spans in order from some position are in order from any earlier one. */
  lemma SortedFrom(spans: seq<Span>, from: nat, from': nat, n: nat)
    requires Sorted(spans, from, n) && from' <= from
    ensures Sorted(spans, from', n)
  {
  }

  /** The text with every span replaced by `f` of the text it covers; the text between
      spans is copied. */
  function Splice(text: string, spans: seq<Span>, f: string -> string, from: nat): string
    requires Sorted(spans, from, |text|)
    decreases |spans|
  {
    if spans == [] then text[from..]
    else text[from..spans[0].start] + f(text[spans[0].start..spans[0].end]) + Splice(text, spans[1..], f, spans[0].end)
  }

  /** Kotlin's `Regex.replace(input, transform)`: without a match the input itself is
      returned; otherwise the matches are replaced one after another as `MatchesFrom`
      finds them. */
  function Replace(p: Pattern, text: string, f: string -> string): (r: string)
    ensures NoMatchIn(p, text, 0, |text| + 1) ==> r == text
  {
    match Find(p, text, 0)
    case None => text
    case Some(m) => Splice(text, MatchesFrom(p, text, m), f, 0)
  }

  lemma {:induction false} SpliceIdentity(text: string, spans: seq<Span>, from: nat)
    requires Sorted(spans, from, |text|)
    ensures Splice(text, spans, s => s, from) == text[from..]
    decreases |spans|
  {
    if spans != [] {
      var m := spans[0];
      SpliceIdentity(text, spans[1..], m.end);
      assert text[from..] == text[from..m.start] + text[m.start..m.end] + text[m.end..];
    }
  }

  /** Replacing every match by the text it matched gives the text back: everything outside
      the matches is copied unchanged and in order. */
  lemma ReplaceIdentity(p: Pattern, text: string)
    ensures Replace(p, text, s => s) == text
  {
    match Find(p, text, 0)
    case None =>
    case Some(m) => SpliceIdentity(text, MatchesFrom(p, text, m), 0);
  }

  /** On text without carriage returns, a splice whose replacements never have fewer line
      terminators than what they replace keeps at least the terminators of the text. */
  lemma {:induction false} SpliceKeepsLines(text: string, spans: seq<Span>, f: string -> string, from: nat)
    requires Sorted(spans, from, |text|)
    requires '\r' !in text
    requires forall s :: '\r' !in s ==> '\r' !in f(s) && Terminators(f(s)) >= Terminators(s)
    ensures '\r' !in Splice(text, spans, f, from)
    ensures Terminators(Splice(text, spans, f, from)) >= Terminators(text[from..])
    decreases |spans|
  {
    if spans != [] {
      var m := spans[0];
      var rest := Splice(text, spans[1..], f, m.end);
      SpliceKeepsLines(text, spans[1..], f, m.end);
      var piece := text[m.start..m.end];
      SliceInThree(text, from, m.start, m.end);
      var fp := f(piece);
      assert '\r' !in fp && Terminators(fp) >= Terminators(piece);
      SpliceStepLines(text[from..m.start], piece, text[m.end..], fp, rest);
    }
  }

  lemma SliceInThree(text: string, a: nat, b: nat, c: nat)
    requires a <= b <= c <= |text| && '\r' !in text
    ensures text[a..] == text[a..b] + text[b..c] + text[c..]
    ensures '\r' !in text[a..b] && '\r' !in text[b..c] && '\r' !in text[c..]
  {
    NoCarriageReturnIn(text, a, b);
    NoCarriageReturnIn(text, b, c);
    NoCarriageReturnIn(text, c, |text|);
    assert text[c..] == text[c..|text|];
  }

  lemma SpliceStepLines(gap: string, piece: string, tail: string, fp: string, rest: string)
    requires '\r' !in gap && '\r' !in piece && '\r' !in tail && '\r' !in fp && '\r' !in rest
    requires Terminators(fp) >= Terminators(piece) && Terminators(rest) >= Terminators(tail)
    ensures '\r' !in gap + fp + rest
    ensures Terminators(gap + fp + rest) >= Terminators(gap + piece + tail)
  {
    TerminatorsAdd3(gap, fp, rest);
    TerminatorsAdd3(gap, piece, tail);
  }

  lemma TerminatorsAdd3(a: string, b: string, c: string)
    requires '\r' !in a && '\r' !in b && '\r' !in c
    ensures '\r' !in a + b + c
    ensures Terminators(a + b + c) == Terminators(a) + Terminators(b) + Terminators(c)
  {
    if a != [] { assert a[|a| - 1] in a; }
    if b != [] { assert b[|b| - 1] in b; }
    assert (a + b) != [] ==> (a + b)[|a + b| - 1] in a + b;
    TerminatorsConcat(a, b);
    TerminatorsConcat(a + b, c);
  }

  lemma NoCarriageReturnIn(text: string, lo: nat, hi: nat)
    requires lo <= hi <= |text| && '\r' !in text
    ensures '\r' !in text[lo..hi]
  {
    forall k | 0 <= k < hi - lo ensures text[lo..hi][k] != '\r' {
      assert text[lo..hi][k] == text[lo + k];
    }
  }

  /** A branch of literals and `\s*` atoms in which no literal is a space and every `\s*`
      is followed by a literal: the shape of a branch derived from a trimmed snippet. */
  ghost predicate Plain(b: Branch) {
    forall k :: 0 <= k < |b| ==> PlainAt(b, k)
  }

  ghost predicate PlainAt(b: Branch, k: nat)
    requires k < |b|
  {
    (b[k].Lit? && !IsRegexSpace(b[k].c)) || (b[k].SpaceStar? && k + 1 < |b| && b[k + 1].Lit?)
  }

  predicate AllSpaces(s: string) {
    forall k :: 0 <= k < |s| ==> IsRegexSpace(s[k])
  }

  /** Every fill is a run of whitespace (none included). */
  predicate SpaceFills(fills: seq<string>) {
    forall k :: 0 <= k < |fills| ==> AllSpaces(fills[k])
  }

  /** The text of a branch with its literals as written and its `\s*` atoms filled, in
      order, by `fills` (the empty string once `fills` runs out). */
  function Render(b: Branch, fills: seq<string>): string
    decreases |b|
  {
    if b == [] then []
    else match b[0]
      case Lit(c) => [c] + Render(b[1..], fills)
      case SpaceStar => FirstFill(fills) + Render(b[1..], LaterFills(fills))
      case _ => Render(b[1..], fills)
  }

  /** The whitespace that fills the next `\s*` atom: none once `fills` runs out. */
  function FirstFill(fills: seq<string>): string {
    if fills == [] then [] else fills[0]
  }

  function LaterFills(fills: seq<string>): seq<string> {
    if fills == [] then [] else fills[1..]
  }

  lemma FillsAreSpaces(fills: seq<string>)
    requires SpaceFills(fills)
    ensures AllSpaces(FirstFill(fills))
    ensures SpaceFills(LaterFills(fills))
  {
    if fills != [] {
      assert AllSpaces(fills[0]);
      assert forall k :: 0 <= k < |fills| - 1 ==> fills[1..][k] == fills[k + 1];
    }
  }

  /** Greedy `\s*` in front of a run of spaces that ends at a non-space takes the whole run. */
  lemma {:induction false} StarTakesRun(b: Branch, w: string, i: nat, e: nat, ignoreCase: bool)
    requires |b| >= 1 && b[0].SpaceStar?
    requires i <= e < |w| && !IsRegexSpace(w[e])
    requires forall k :: i <= k < e ==> IsRegexSpace(w[k])
    requires MatchBranch(b[1..], w, e, ignoreCase).Some?
    ensures MatchBranch(b, w, i, ignoreCase) == MatchBranch(b[1..], w, e, ignoreCase)
    decreases e - i
  {
    if i < e {
      StarTakesRun(b, w, i + 1, e, ignoreCase);
    }
  }

  /** `w` holds the rendering of `b` with `fills` at `i`. */
  predicate RenderedAt(b: Branch, fills: seq<string>, w: string, i: nat) {
    i + |Render(b, fills)| <= |w| && w[i..i + |Render(b, fills)|] == Render(b, fills)
  }

  /** A plain branch matches wherever a rendering of itself occurs, with any whitespace in
      place of its `\s*` atoms, and the match ends exactly where the rendering ends. */
  lemma {:induction false} RenderMatches(b: Branch, fills: seq<string>, w: string, i: nat, ignoreCase: bool)
    requires Plain(b)
    requires SpaceFills(fills)
    requires RenderedAt(b, fills, w, i)
    ensures MatchBranch(b, w, i, ignoreCase) == Some(i + |Render(b, fills)|)
    decreases |b|
  {
    if b != [] {
      PlainTail(b);
      assert PlainAt(b, 0);
      if b[0].Lit? {
        LitCase(b, fills, w, i, ignoreCase);
        RenderMatches(b[1..], fills, w, i + 1, ignoreCase);
      } else {
        assert AllSpaces(FirstFill(fills)) && SpaceFills(LaterFills(fills)) by { FillsAreSpaces(fills); }
        SpaceCase(b, fills, w, i, ignoreCase);
        RenderMatches(b[1..], LaterFills(fills), w, i + |FirstFill(fills)|, ignoreCase);
      }
    }
  }

  lemma PlainTail(b: Branch)
    requires Plain(b) && b != []
    ensures Plain(b[1..])
  {
    var tail := b[1..];
    forall k | 0 <= k < |tail| ensures PlainAt(tail, k) {
      assert tail[k] == b[k + 1];
      assert PlainAt(b, k + 1);
      if k + 1 < |tail| { assert tail[k + 1] == b[k + 2]; }
    }
  }

  /** A literal first: the rest of the rendering follows it, and the match continues there. */
  lemma LitCase(b: Branch, fills: seq<string>, w: string, i: nat, ignoreCase: bool)
    requires b != [] && b[0].Lit? && RenderedAt(b, fills, w, i)
    ensures RenderedAt(b[1..], fills, w, i + 1)
    ensures MatchBranch(b[1..], w, i + 1, ignoreCase) == Some(i + 1 + |Render(b[1..], fills)|) ==>
            MatchBranch(b, w, i, ignoreCase) == Some(i + |Render(b, fills)|)
  {
    var r := Render(b[1..], fills);
    var n := 1 + |r|;
    assert Render(b, fills) == [b[0].c] + r;
    assert w[i] == b[0].c by {
      assert w[i] == w[i..i + n][0];
    }
    assert RenderedAt(b[1..], fills, w, i + 1) by {
      assert w[i + 1..i + n] == w[i..i + n][1..];
    }
    LitStep(b, w, i, ignoreCase);
  }

  lemma LitStep(b: Branch, w: string, i: nat, ignoreCase: bool)
    requires b != [] && b[0].Lit? && i < |w| && w[i] == b[0].c
    ensures MatchBranch(b, w, i, ignoreCase) == MatchBranch(b[1..], w, i + 1, ignoreCase)
  {
  }

  /** A `\s*` first: its fill is a run of spaces ending at the next literal, which the greedy
      star takes whole, and the match continues after it. */
  lemma SpaceCase(b: Branch, fills: seq<string>, w: string, i: nat, ignoreCase: bool)
    requires Plain(b) && b != [] && b[0].SpaceStar?
    requires AllSpaces(FirstFill(fills)) && RenderedAt(b, fills, w, i)
    ensures RenderedAt(b[1..], LaterFills(fills), w, i + |FirstFill(fills)|)
    ensures var e := i + |FirstFill(fills)|;
            MatchBranch(b[1..], w, e, ignoreCase) == Some(e + |Render(b[1..], LaterFills(fills))|) ==>
            MatchBranch(b, w, i, ignoreCase) == Some(i + |Render(b, fills)|)
  {
    var e := i + |FirstFill(fills)|;
    SpaceLayout(b, fills, w, i);
    if MatchBranch(b[1..], w, e, ignoreCase).Some? {
      StarTakesRun(b, w, i, e, ignoreCase);
    }
  }

  /** Where a rendering that starts with `\s*` lies in `w`: its fill is a run of spaces up to
      the next literal, and the rest of the rendering follows. */
  lemma SpaceLayout(b: Branch, fills: seq<string>, w: string, i: nat)
    requires Plain(b) && b != [] && b[0].SpaceStar?
    requires AllSpaces(FirstFill(fills)) && RenderedAt(b, fills, w, i)
    ensures RenderedAt(b[1..], LaterFills(fills), w, i + |FirstFill(fills)|)
    ensures |Render(b, fills)| == |FirstFill(fills)| + |Render(b[1..], LaterFills(fills))|
    ensures SpaceRun(w, i, i + |FirstFill(fills)|)
  {
    assert PlainAt(b, 0) && PlainAt(b, 1);
    var f := FirstFill(fills);
    var r := Render(b[1..], LaterFills(fills));
    var n := |f| + |r|;
    var e := i + |f|;
    var seg := w[i..i + n];
    assert seg == f + r;
    assert RenderedAt(b[1..], LaterFills(fills), w, e) by {
      assert w[e..i + n] == seg[|f|..];
    }
    assert e < |w| && !IsRegexSpace(w[e]) by {
      assert r[0] == b[1].c by {
        assert r == [b[1].c] + Render(b[2..], LaterFills(fills)) by {
          assert b[1..][0] == b[1] && b[1..][1..] == b[2..];
        }
      }
      assert w[e] == seg[|f|];
    }
    assert forall k :: i <= k < e ==> IsRegexSpace(w[k]) by {
      forall k | i <= k < e ensures IsRegexSpace(w[k]) {
        assert w[k] == seg[k - i] == f[k - i];
      }
    }
  }

  /** `w[i..e]` is all whitespace and `w[e]` is not. */
  predicate SpaceRun(w: string, i: nat, e: nat) {
    i <= e < |w| && !IsRegexSpace(w[e]) && forall k :: i <= k < e ==> IsRegexSpace(w[k])
  }


  lemma PlainCons(h: Token, b: Branch)
    requires Plain(b)
    requires (h.Lit? && !IsRegexSpace(h.c)) || (h.SpaceStar? && b != [] && b[0].Lit?)
    ensures Plain([h] + b)
  {
    var hb := [h] + b;
    forall k | 0 <= k < |hb| ensures PlainAt(hb, k) {
      if k > 0 {
        assert PlainAt(b, k - 1);
        assert hb[k] == b[k - 1];
        if k < |b| { assert hb[k + 1] == b[k]; }
      }
    }
  }

  lemma RenderLit(c: char, b: Branch, fills: seq<string>)
    ensures Render([Lit(c)] + b, fills) == [c] + Render(b, fills)
  {
    assert ([Lit(c)] + b)[1..] == b;
  }

  lemma RenderSpace(b: Branch, f: string, fills: seq<string>)
    ensures Render([SpaceStar] + b, [f] + fills) == f + Render(b, fills)
  {
    assert ([SpaceStar] + b)[1..] == b;
    assert ([f] + fills)[1..] == fills;
  }

  /** A pattern whose one alternative is a plain branch matches every rendering of it. */
  lemma PlainPatternMatches(p: Pattern, b: Branch, fills: seq<string>, pre: string, post: string)
    requires p.alternatives == [b] && Plain(b)
    requires SpaceFills(fills)
    ensures MatchAt(p, pre + Render(b, fills) + post, |pre|) == Some(|pre| + |Render(b, fills)|)
  {
    var w := pre + Render(b, fills) + post;
    assert RenderedAt(b, fills, w, |pre|) by {
      assert w[|pre|..|pre| + |Render(b, fills)|] == Render(b, fills);
    }
    RenderMatches(b, fills, w, |pre|, p.ignoreCase);
  }
}
