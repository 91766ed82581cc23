/** The Kotlin-runtime patcher: `applyPatchToKotlinRuntime` and `applyPatchesToKotlinRuntime`
    of JavaScript.kt. A "before" snippet becomes a whitespace-insensitive, case-insensitive
    pattern; every match in the runtime text is replaced by the "after" snippet, padded with
    newlines so that the replaced span keeps its line count. */
module PatchEngine {
  import opened Text
  import opened Regex

  // ---------------------------------------------------------------------------------
  // Trimming the snippet (`patchSrc.trim()`)

  /** Kotlin's `Char.isWhitespace()` on the JVM, which `String.trim()` uses:
      `Character.isWhitespace` or `Character.isSpaceChar`. */
  predicate IsKotlinWhitespace(c: char) {
    var n := c as int;
    (9 <= n <= 13) || (28 <= n <= 32) || n == 0xA0 || n == 0x1680 || (0x2000 <= n <= 0x200A) ||
    n == 0x2028 || n == 0x2029 || n == 0x202F || n == 0x205F || n == 0x3000
  }

  /** `s.trimStart()` */
  function TrimStart(s: string): (r: string)
    ensures |r| <= |s| && r == s[|s| - |r|..]
    ensures forall k :: 0 <= k < |s| - |r| ==> IsKotlinWhitespace(s[k])
    ensures r != [] ==> !IsKotlinWhitespace(r[0])
  {
    if s != [] && IsKotlinWhitespace(s[0]) then
      var r := TrimStart(s[1..]);
      assert forall k :: 1 <= k < |s| - |r| ==> s[k] == s[1..][k - 1];
      r
    else s
  }

  /** `s.trimEnd()` */
  function TrimEnd(s: string): (r: string)
    ensures |r| <= |s| && r == s[..|r|]
    ensures forall k :: |r| <= k < |s| ==> IsKotlinWhitespace(s[k])
    ensures r != [] ==> !IsKotlinWhitespace(r[|r| - 1])
  {
    if s != [] && IsKotlinWhitespace(s[|s| - 1]) then
      var r := TrimEnd(s[..|s| - 1]);
      assert forall k :: |r| <= k < |s| - 1 ==> s[k] == s[..|s| - 1][k];
      r
    else s
  }

  /** `s.trim()`: the text between the leading and the trailing whitespace. */
  function Trim(s: string): (r: string)
    ensures |r| <= |s|
    ensures r != [] ==> !IsKotlinWhitespace(r[0]) && !IsKotlinWhitespace(r[|r| - 1])
  {
    TrimEnd(TrimStart(s))
  }

  predicate AllWhitespace(s: string) {
    forall k :: 0 <= k < |s| ==> IsKotlinWhitespace(s[k])
  }

  /** `r` is the part of `s` from `i` on, with only whitespace before and after it. */
  predicate WhitespaceAround(s: string, i: nat, r: string) {
    i + |r| <= |s| && s[i..i + |r|] == r && AllWhitespace(s[..i]) && AllWhitespace(s[i + |r|..])
  }

  /** What `trim` removes is whitespace at both ends and nothing else. */
  lemma TrimIsSlice(s: string)
    ensures WhitespaceAround(s, |s| - |TrimStart(s)|, Trim(s))
  {
    var m := TrimStart(s);
    LeadingWhitespace(s);
    TrailingWhitespace(m);
    AroundParts(s, |s| - |m|, m, TrimEnd(m));
  }

  lemma AroundParts(s: string, i: nat, m: string, r: string)
    requires i <= |s| && m == s[i..] && |r| <= |m| && r == m[..|r|]
    requires AllWhitespace(s[..i]) && AllWhitespace(m[|r|..])
    ensures WhitespaceAround(s, i, r)
  {
    assert s[i..i + |r|] == m[..|r|];
    assert s[i + |r|..] == m[|r|..];
  }

  lemma LeadingWhitespace(s: string)
    ensures AllWhitespace(s[..|s| - |TrimStart(s)|])
  {
    var n := |s| - |TrimStart(s)|;
    forall k | 0 <= k < n ensures IsKotlinWhitespace(s[..n][k]) {
      assert s[..n][k] == s[k];
    }
  }

  lemma TrailingWhitespace(m: string)
    ensures AllWhitespace(m[|TrimEnd(m)|..])
  {
    var n := |TrimEnd(m)|;
    forall k | 0 <= k < |m| - n ensures IsKotlinWhitespace(m[n..][k]) {
      assert m[n..][k] == m[n + k];
    }
  }

  // ---------------------------------------------------------------------------------
  // Escaping (lines 418-430)

  /** The characters escaped, in the order of the `replace` calls: the backslash first. */
  const EscapeOrder: string := "\\.?[({)}]+*$^"

  /** The chain of `replace` calls: for each character of `order` in turn, every occurrence
      of it is prefixed with a backslash. */
  function EscapeChain(s: string, order: string): string
    decreases |order|
  {
    if order == [] then s
    else EscapeChain(ReplaceChar(s, order[0], ['\\', order[0]]), order[1..])
  }

  /** The characters the chain escapes. */
  predicate IsMeta(c: char) {
    c == '\\' || c == '.' || c == '?' || c == '[' || c == '(' || c == '{' || c == ')' ||
    c == '}' || c == ']' || c == '+' || c == '*' || c == '$' || c == '^'
  }

  lemma MetaIsInOrder(c: char)
    ensures IsMeta(c) <==> c in EscapeOrder
  {
    assert EscapeOrder == ['\\', '.', '?', '[', '(', '{', ')', '}', ']', '+', '*', '$', '^'];
  }

  /** The escaping the chain is meant to perform, one character at a time. */
  function EscapeChar(c: char): string {
    if IsMeta(c) then ['\\', c] else [c]
  }

  function Escape(t: string): string {
    if t == [] then [] else EscapeChar(t[0]) + Escape(t[1..])
  }

  /** Drops the backslash in front of every escaped character. */
  function Unescape(e: string): string {
    if e == [] then []
    else if e[0] == '\\' && |e| >= 2 then [e[1]] + Unescape(e[2..])
    else [e[0]] + Unescape(e[1..])
  }

  lemma {:induction false} EscapeChainConcat(a: string, b: string, order: string)
    ensures EscapeChain(a + b, order) == EscapeChain(a, order) + EscapeChain(b, order)
    decreases |order|
  {
    if order != [] {
      var c := order[0];
      ReplaceCharConcat(a, b, c, ['\\', c]);
      EscapeChainConcat(ReplaceChar(a, c, ['\\', c]), ReplaceChar(b, c, ['\\', c]), order[1..]);
    }
  }

  lemma {:induction false} EscapeChainUntouched(s: string, order: string)
    requires forall k :: 0 <= k < |order| ==> order[k] !in s
    ensures EscapeChain(s, order) == s
    decreases |order|
  {
    if order != [] {
      EscapeChainUntouched(s, order[1..]);
    }
  }

  predicate Distinct(order: string) {
    forall i, j :: 0 <= i < j < |order| ==> order[i] != order[j]
  }

  /** On one character, a chain of distinct characters in which the backslash can only come
      first escapes exactly the characters it lists. */
  lemma {:induction false} EscapeChainOne(c: char, order: string)
    requires Distinct(order)
    requires forall k :: 1 <= k < |order| ==> order[k] != '\\'
    ensures EscapeChain([c], order) == if c in order then ['\\', c] else [c]
    decreases |order|
  {
    if order != [] {
      var o := order[0];
      var rest := order[1..];
      assert Distinct(rest) by {
        forall i, j | 0 <= i < j < |rest| ensures rest[i] != rest[j] {
          assert rest[i] == order[i + 1] && rest[j] == order[j + 1];
        }
      }
      assert forall k :: 0 <= k < |rest| ==> rest[k] == order[k + 1];
      if c == o {
        assert ReplaceChar([c], o, ['\\', o]) == ['\\', c];
        forall k | 0 <= k < |rest| ensures rest[k] !in ['\\', c] {
          assert rest[k] == order[k + 1];
        }
        EscapeChainUntouched(['\\', c], rest);
      } else {
        assert ReplaceChar([c], o, ['\\', o]) == [c];
        EscapeChainOne(c, rest);
        assert c in order <==> c in rest by {
          if c in order {
            var k :| 0 <= k < |order| && order[k] == c;
            assert rest[k - 1] == c;
          }
        }
      }
    }
  }

  lemma EscapeOrderDistinct()
    ensures Distinct(EscapeOrder)
    ensures forall k :: 1 <= k < |EscapeOrder| ==> EscapeOrder[k] != '\\'
  {
  }

  /** Escaping with a chain of distinct characters in which the backslash can only come
      first, one character at a time. */
  lemma {:induction false} EscapeChainPerChar(t: string, order: string)
    requires Distinct(order)
    requires forall k :: 1 <= k < |order| ==> order[k] != '\\'
    ensures |EscapeChain(t, order)| >= |t|
    ensures t != [] ==>
              EscapeChain(t, order) ==
              (if t[0] in order then ['\\', t[0]] else [t[0]]) + EscapeChain(t[1..], order)
  {
    if t != [] {
      var c := t[0];
      EscapeChainOne(c, order);
      assert t == [c] + t[1..];
      EscapeChainConcat([c], t[1..], order);
      EscapeChainPerChar(t[1..], order);
    }
  }

  /** A chain of distinct characters that lists exactly the metacharacters, the backslash
      first, escapes each character on its own. */
  lemma {:induction false} MetaChainIsEscape(t: string, order: string)
    requires Distinct(order)
    requires forall k :: 1 <= k < |order| ==> order[k] != '\\'
    requires forall c :: IsMeta(c) <==> c in order
    ensures EscapeChain(t, order) == Escape(t)
  {
    if t != [] {
      EscapeChainPerChar(t, order);
      MetaChainIsEscape(t[1..], order);
    } else {
      EscapeChainUntouched(t, order);
    }
  }

  /** The `replace` chain of lines 418-430 escapes each character on its own: the backslash
      goes first, so no backslash added for a metacharacter is escaped again. */
  lemma EscapeChainIsEscape(t: string)
    ensures EscapeChain(t, EscapeOrder) == Escape(t)
  {
    EscapeOrderDistinct();
    forall c ensures IsMeta(c) <==> c in EscapeOrder {
      MetaIsInOrder(c);
    }
    MetaChainIsEscape(t, EscapeOrder);
  }

  /** Removing the escapes gives back exactly the trimmed snippet. */
  lemma {:induction false} UnescapeEscape(t: string)
    ensures Unescape(Escape(t)) == t
  {
    if t != [] {
      var c := t[0];
      UnescapeEscape(t[1..]);
      if IsMeta(c) {
        assert Escape(t) == ['\\', c] + Escape(t[1..]);
        assert (['\\', c] + Escape(t[1..]))[2..] == Escape(t[1..]);
      } else {
        assert c != '\\';
        assert Escape(t) == [c] + Escape(t[1..]);
        assert ([c] + Escape(t[1..]))[1..] == Escape(t[1..]);
      }
    }
  }

  // ---------------------------------------------------------------------------------
  // Whitespace collapsing (line 431)

  /** The text after its leading `\s` run. */
  function DropSpaces(s: string): (r: string)
    ensures |r| <= |s| && r == s[|s| - |r|..]
    ensures forall k :: 0 <= k < |s| - |r| ==> IsRegexSpace(s[k])
    ensures r != [] ==> !IsRegexSpace(r[0])
    ensures s != [] && !IsRegexSpace(s[|s| - 1]) ==> r != []
  {
    if s == [] || !IsRegexSpace(s[0]) then s
    else
      var r := DropSpaces(s[1..]);
      assert forall k :: 1 <= k < |s| - |r| ==> s[k] == s[1..][k - 1];
      r
  }

  /** `.replace(Regex("\\s+"), "\\\\s*")`: every maximal run of `\s` characters becomes
      the three characters `\s*`: the replacement text `\\s*` is read by `replaceAll`,
      which turns the escaped backslash into one backslash. */
  function Collapse(e: string): string
    decreases |e|
  {
    if e == [] then []
    else if IsRegexSpace(e[0]) then "\\s*" + Collapse(DropSpaces(e))
    else [e[0]] + Collapse(e[1..])
  }

  /** No `\s` character survives the collapse: every run became `\s*`. */
  lemma {:induction false} CollapseNoRawSpace(e: string)
    ensures forall k :: 0 <= k < |Collapse(e)| ==> !IsRegexSpace(Collapse(e)[k])
    decreases |e|
  {
    if e == [] {
    } else if IsRegexSpace(e[0]) {
      CollapseNoRawSpace(DropSpaces(e));
    } else {
      CollapseNoRawSpace(e[1..]);
    }
  }

  /** The pattern text `applyPatchToKotlinRuntime` hands to `Regex(...)`. */
  function DerivePattern(src: string): string {
    Collapse(EscapeChain(Trim(src), EscapeOrder))
  }

  // ---------------------------------------------------------------------------------
  // Compiling the pattern text

  /** A pattern element: an atom of a branch, or the `|` between alternatives. */
  datatype Item = Atom(t: Token) | Bar

  predicate IsAsciiAlphanumeric(c: char) {
    ('a' <= c <= 'z') || ('A' <= c <= 'Z') || ('0' <= c <= '9')
  }

  function Prepend(x: Item, r: Option<seq<Item>>): Option<seq<Item>> {
    if r.Some? then Some([x] + r.value) else None
  }

  /** Java's reading of a pattern text, for the constructs a derived pattern can contain:
      `\s*`, a backslash before a non-alphanumeric character (that character literally),
      `|`, and any other character literally. Anything else is outside this fragment. */
  function Compile(p: string): Option<seq<Item>>
    decreases |p|
  {
    if p == [] then Some([])
    else if p[0] == '\\' then
      if |p| >= 3 && p[1] == 's' && p[2] == '*' then Prepend(Atom(SpaceStar), Compile(p[3..]))
      else if |p| >= 2 && !IsAsciiAlphanumeric(p[1]) then Prepend(Atom(Lit(p[1])), Compile(p[2..]))
      else None
    else if p[0] == '|' then Prepend(Bar, Compile(p[1..]))
    else if IsMeta(p[0]) then None
    else Prepend(Atom(Lit(p[0])), Compile(p[1..]))
  }

  /** What the snippet means as a pattern, read off the snippet directly: a whitespace run
      matches any whitespace run, `|` separates alternatives, anything else is literal. */
  function Tokenize(t: string): seq<Item>
    decreases |t|
  {
    if t == [] then [] else [Head(t)] + Tokenize(Rest(t))
  }

  /** The item a non-empty snippet starts with. */
  function Head(t: string): Item
    requires t != []
  {
    if IsRegexSpace(t[0]) then Atom(SpaceStar)
    else if t[0] == '|' then Bar
    else Atom(Lit(t[0]))
  }

  /** What is left of a non-empty snippet after its first item: a whole whitespace run, or
      one character. */
  function Rest(t: string): (r: string)
    requires t != []
    ensures |r| < |t| && r == t[|t| - |r|..]
    ensures !IsRegexSpace(t[0]) ==> r == t[1..]
    ensures IsRegexSpace(t[0]) ==> AllSpaces(t[..|t| - |r|]) && (r == [] || !IsRegexSpace(r[0]))
    ensures IsRegexSpace(t[0]) && !IsRegexSpace(t[|t| - 1]) ==> r != []
  {
    if IsRegexSpace(t[0]) then DropSpaces(t) else t[1..]
  }

  lemma {:induction false} EscapeDropSpaces(t: string)
    ensures DropSpaces(Escape(t)) == Escape(DropSpaces(t))
  {
    if t != [] {
      if IsRegexSpace(t[0]) {
        assert Escape(t) == [t[0]] + Escape(t[1..]);
        assert ([t[0]] + Escape(t[1..]))[1..] == Escape(t[1..]);
        EscapeDropSpaces(t[1..]);
      } else {
        assert Escape(t) == EscapeChar(t[0]) + Escape(t[1..]);
      }
    }
  }

  lemma CompileSpaceStar(x: string)
    ensures Compile("\\s*" + x) == Prepend(Atom(SpaceStar), Compile(x))
  {
    assert ("\\s*" + x)[3..] == x;
  }

  lemma CompileEscaped(c: char, x: string)
    requires IsMeta(c)
    ensures Compile(['\\', c] + x) == Prepend(Atom(Lit(c)), Compile(x))
  {
    assert (['\\', c] + x)[2..] == x;
  }

  lemma CompilePlain(c: char, x: string)
    requires !IsMeta(c)
    ensures Compile([c] + x) == Prepend(if c == '|' then Bar else Atom(Lit(c)), Compile(x))
  {
    assert c != '\\';
    assert ([c] + x)[1..] == x;
  }

  lemma CollapseNonSpace(c: char, x: string)
    requires !IsRegexSpace(c)
    ensures Collapse([c] + x) == [c] + Collapse(x)
  {
    assert ([c] + x)[1..] == x;
  }

  lemma EscapeCons(t: string)
    requires t != []
    ensures Escape(t) == EscapeChar(t[0]) + Escape(t[1..])
  {
  }

  /** The escaped, collapsed text always compiles, and to exactly the snippet's
      tokenization: escaping never produces a construct the snippet did not ask for. */
  lemma {:induction false} CompileDerived(t: string)
    ensures Compile(Collapse(Escape(t))) == Some(Tokenize(t))
    decreases |t|
  {
    if t != [] {
      CompileDerived(Rest(t));
      if IsRegexSpace(t[0]) {
        CompileDerivedSpace(t);
      } else {
        CompileDerivedOther(t);
      }
    }
  }

  lemma CompileDerivedSpace(t: string)
    requires t != [] && IsRegexSpace(t[0])
    requires Compile(Collapse(Escape(Rest(t)))) == Some(Tokenize(Rest(t)))
    ensures Compile(Collapse(Escape(t))) == Some(Tokenize(t))
  {
    var d := DropSpaces(t);
    var e := Escape(t);
    EscapeCons(t);
    assert EscapeChar(t[0]) == [t[0]];
    assert e[0] == t[0];
    assert Collapse(e) == "\\s*" + Collapse(DropSpaces(e));
    EscapeDropSpaces(t);
    assert Collapse(e) == "\\s*" + Collapse(Escape(d));
    CompileSpaceStar(Collapse(Escape(d)));
    TokenizeCons(t);
  }

  lemma CompileDerivedOther(t: string)
    requires t != [] && !IsRegexSpace(t[0])
    requires Compile(Collapse(Escape(Rest(t)))) == Some(Tokenize(Rest(t)))
    ensures Compile(Collapse(Escape(t))) == Some(Tokenize(t))
  {
    assert Rest(t) == t[1..];
    if IsMeta(t[0]) {
      CompileDerivedMeta(t);
    } else {
      CompileDerivedPlain(t);
    }
  }

  lemma CompileDerivedMeta(t: string)
    requires t != [] && IsMeta(t[0])
    requires Compile(Collapse(Escape(t[1..]))) == Some(Tokenize(t[1..]))
    ensures Compile(Collapse(Escape(t))) == Some(Tokenize(t))
  {
    var c := t[0];
    var y := Escape(t[1..]);
    EscapeMetaCons(t);
    CollapseEscapedMeta(c, y);
    CompileEscaped(c, Collapse(y));
    TokenizeMetaCons(t);
  }

  lemma EscapeMetaCons(t: string)
    requires t != [] && IsMeta(t[0])
    ensures Escape(t) == ['\\', t[0]] + Escape(t[1..])
  {
    EscapeCons(t);
  }

  lemma CollapseEscapedMeta(c: char, y: string)
    requires IsMeta(c)
    ensures Collapse(['\\', c] + y) == ['\\', c] + Collapse(y)
  {
    assert !IsRegexSpace(c);
    CollapseTwoNonSpaces('\\', c, y);
  }

  lemma CollapseTwoNonSpaces(a: char, b: char, y: string)
    requires !IsRegexSpace(a) && !IsRegexSpace(b)
    ensures Collapse([a, b] + y) == [a, b] + Collapse(y)
  {
    var rest := [b] + y;
    CollapseNonSpace(b, y);
    CollapseNonSpace(a, rest);
    assert [a, b] + y == [a] + rest;
    assert [a] + ([b] + Collapse(y)) == [a, b] + Collapse(y);
  }

  lemma TokenizeMetaCons(t: string)
    requires t != [] && IsMeta(t[0])
    ensures Tokenize(t) == [Atom(Lit(t[0]))] + Tokenize(t[1..])
  {
    TokenizeCons(t);
    assert Rest(t) == t[1..];
  }

  lemma CompileDerivedPlain(t: string)
    requires t != [] && !IsMeta(t[0]) && !IsRegexSpace(t[0])
    requires Compile(Collapse(Escape(t[1..]))) == Some(Tokenize(t[1..]))
    ensures Compile(Collapse(Escape(t))) == Some(Tokenize(t))
  {
    var c := t[0];
    var y := Escape(t[1..]);
    var x := Collapse(y);
    EscapeCons(t);
    assert Escape(t) == [c] + y;
    CollapseNonSpace(c, y);
    assert Collapse(Escape(t)) == [c] + x;
    CompilePlain(c, x);
    TokenizeCons(t);
    assert Rest(t) == t[1..];
    assert Tokenize(t) == [if c == '|' then Bar else Atom(Lit(c))] + Tokenize(t[1..]);
  }

  /** The alternatives of an item sequence: the runs between `Bar`s. */
  function SplitAlternatives(items: seq<Item>): (r: seq<Branch>)
    ensures |r| >= 1
  {
    if items == [] then [[]]
    else
      var r := SplitAlternatives(items[1..]);
      if items[0].Bar? then [[]] + r else [[items[0].t] + r[0]] + r[1..]
  }

  /** The pattern Java reads from the escaped, collapsed text of a trimmed snippet `t`,
      stated directly over `t`'s tokens. */
  function SnippetPattern(t: string): Pattern {
    Pattern(SplitAlternatives(Tokenize(t)), true)
  }

  /** The regex `applyPatchToKotlinRuntime` builds from `patchSrc`, with IGNORE_CASE
      (MULTILINE only changes `^` and `$`, which a derived pattern never holds unescaped). */
  function PatchRegex(src: string): (p: Pattern)
    ensures p == SnippetPattern(Trim(src))
  {
    var t := Trim(src);
    EscapeChainIsEscape(t);
    CompileDerived(t);
    Pattern(SplitAlternatives(Compile(DerivePattern(src)).value), true)
  }

  /** The tokens of the atoms of an item sequence, in order. */
  function Atoms(items: seq<Item>): seq<Token> {
    if items == [] then []
    else (if items[0].Atom? then [items[0].t] else []) + Atoms(items[1..])
  }

  lemma AtomsCons(x: Item, items: seq<Item>)
    ensures Atoms([x] + items) == (if x.Atom? then [x.t] else []) + Atoms(items)
  {
    assert ([x] + items)[1..] == items;
  }

  /** The whitespace runs of a text, in order. */
  function Runs(t: string): seq<string>
    decreases |t|
  {
    if t == [] then []
    else (if IsRegexSpace(t[0]) then [t[..|t| - |Rest(t)|]] else []) + Runs(Rest(t))
  }

  /** The trimmed snippet `t` with its whitespace runs replaced by `fills`. */
  function Respaced(t: string, fills: seq<string>): string {
    Render(Atoms(Tokenize(t)), fills)
  }

  /** What is left of a snippet keeps the snippet's freedom from `|` and its non-space end. */
  lemma RestKeeps(t: string)
    requires t != [] && '|' !in t
    requires !IsRegexSpace(t[|t| - 1])
    ensures '|' !in Rest(t)
    ensures Rest(t) == [] || !IsRegexSpace(Rest(t)[|Rest(t)| - 1])
    ensures IsRegexSpace(t[0]) ==> Rest(t) != []
  {
    var r := Rest(t);
    forall k | 0 <= k < |r| ensures r[k] != '|' {
      assert r[k] == t[|t| - |r| + k];
    }
    if r != [] {
      assert r[|r| - 1] == t[|t| - 1];
    }
  }

  /** Without `|`, the snippet is a single alternative. */
  lemma {:induction false} SingleAlternative(t: string)
    requires '|' !in t
    ensures SplitAlternatives(Tokenize(t)) == [Atoms(Tokenize(t))]
    decreases |t|
  {
    if t != [] {
      var rest := Rest(t);
      assert '|' !in rest by {
        forall k | 0 <= k < |rest| ensures rest[k] != '|' {
          assert rest[k] == t[|t| - |rest| + k];
        }
      }
      SingleAlternative(rest);
      var items := Tokenize(t);
      assert items[1..] == Tokenize(rest);
      assert items[0] == Head(t) && Head(t).Atom?;
      AtomsCons(Head(t), Tokenize(rest));
    }
  }

  /** A trimmed snippet without `|` compiles to a plain branch. */
  lemma {:induction false} TokensPlain(t: string)
    requires '|' !in t
    requires t == [] || !IsRegexSpace(t[|t| - 1])
    ensures Plain(Atoms(Tokenize(t)))
    decreases |t|
  {
    if t != [] {
      var rest := Rest(t);
      RestKeeps(t);
      TokensPlain(rest);
      var h := Head(t);
      var b := Atoms(Tokenize(rest));
      AtomsCons(h, Tokenize(rest));
      if IsRegexSpace(t[0]) {
        AtomsCons(Head(rest), Tokenize(Rest(rest)));
        assert b[0] == Lit(rest[0]);
      }
      PlainCons(h.t, b);
    }
  }

  lemma RestNoBar(t: string)
    requires t != [] && '|' !in t
    ensures '|' !in Rest(t)
  {
    var rest := Rest(t);
    forall k | 0 <= k < |rest| ensures rest[k] != '|' {
      assert rest[k] == t[|t| - |rest| + k];
    }
  }

  /** Rendering a snippet's branch with the snippet's own whitespace runs gives the snippet. */
  lemma {:induction false} RenderRuns(t: string)
    requires '|' !in t
    ensures Render(Atoms(Tokenize(t)), Runs(t)) == t
    decreases |t|
  {
    if t != [] {
      RestNoBar(t);
      RenderRuns(Rest(t));
      RenderRunsStep(t);
    }
  }

  lemma RenderRunsStep(t: string)
    requires t != [] && '|' !in t
    requires Render(Atoms(Tokenize(Rest(t))), Runs(Rest(t))) == Rest(t)
    ensures Render(Atoms(Tokenize(t)), Runs(t)) == t
  {
    if IsRegexSpace(t[0]) {
      RenderRunsSpace(t);
    } else {
      assert t[0] in t;
      RenderRunsLit(t);
    }
  }

  lemma RenderRunsSpace(t: string)
    requires t != [] && IsRegexSpace(t[0])
    requires Render(Atoms(Tokenize(Rest(t))), Runs(Rest(t))) == Rest(t)
    ensures Render(Atoms(Tokenize(t)), Runs(t)) == t
  {
    var rest := Rest(t);
    var run := t[..|t| - |rest|];
    TokenizeCons(t);
    AtomsCons(Atom(SpaceStar), Tokenize(rest));
    RunsCons(t);
    RenderSpace(Atoms(Tokenize(rest)), run, Runs(rest));
    SplitAtRest(t);
  }

  lemma TokenizeCons(t: string)
    requires t != []
    ensures Tokenize(t) == [Head(t)] + Tokenize(Rest(t))
  {
  }

  lemma RunsCons(t: string)
    requires t != [] && IsRegexSpace(t[0])
    ensures Runs(t) == [t[..|t| - |Rest(t)|]] + Runs(Rest(t))
  {
  }

  lemma SplitAtRest(t: string)
    requires t != []
    ensures t == t[..|t| - |Rest(t)|] + Rest(t)
  {
  }

  lemma RenderRunsLit(t: string)
    requires t != [] && !IsRegexSpace(t[0]) && t[0] != '|'
    requires Render(Atoms(Tokenize(Rest(t))), Runs(Rest(t))) == Rest(t)
    ensures Render(Atoms(Tokenize(t)), Runs(t)) == t
  {
    var rest := Rest(t);
    var b := Atoms(Tokenize(rest));
    assert Tokenize(t) == [Atom(Lit(t[0]))] + Tokenize(rest);
    AtomsCons(Atom(Lit(t[0])), Tokenize(rest));
    assert Runs(t) == Runs(rest);
    RenderLit(t[0], b, Runs(rest));
    assert t == [t[0]] + rest;
  }

  /** The whitespace runs of a snippet are whitespace. */
  lemma {:induction false} RunsAreSpaces(t: string)
    ensures SpaceFills(Runs(t))
    decreases |t|
  {
    if t != [] {
      var rest := Rest(t);
      var head := if IsRegexSpace(t[0]) then [t[..|t| - |rest|]] else [];
      assert SpaceFills(head);
      RunsAreSpaces(rest);
      assert Runs(t) == head + Runs(rest);
      SpaceFillsConcat(head, Runs(rest));
    }
  }

  lemma SpaceFillsConcat(a: seq<string>, b: seq<string>)
    requires SpaceFills(a) && SpaceFills(b)
    ensures SpaceFills(a + b)
  {
    forall k | 0 <= k < |a + b| ensures AllSpaces((a + b)[k]) {
      if k < |a| { assert (a + b)[k] == a[k]; } else { assert (a + b)[k] == b[k - |a|]; }
    }
  }

  lemma TokensMatchRendering(t: string, fills: seq<string>, pre: string, post: string)
    requires '|' !in t
    requires t == [] || !IsRegexSpace(t[|t| - 1])
    requires SpaceFills(fills)
    ensures MatchAt(SnippetPattern(t), pre + Respaced(t, fills) + post, |pre|) ==
            Some(|pre| + |Respaced(t, fills)|)
  {
    var b := Atoms(Tokenize(t));
    assert SnippetPattern(t).alternatives == [b] by { SingleAlternative(t); }
    assert Plain(b) by { TokensPlain(t); }
    PlainPatternMatches(SnippetPattern(t), b, fills, pre, post);
  }

  /** Whitespace-insensitivity: when the trimmed snippet `t` holds no `|`, the pattern matches
      wherever the runtime holds `t` with any whitespace (none included) in place of each of
      its whitespace runs, and the match covers exactly that text. */
  lemma RespacedSnippetMatches(src: string, t: string, fills: seq<string>, pre: string, post: string)
    requires t == Trim(src) && '|' !in t
    requires SpaceFills(fills)
    ensures MatchAt(PatchRegex(src), pre + Respaced(t, fills) + post, |pre|) ==
            Some(|pre| + |Respaced(t, fills)|)
  {
    assert t == [] || !IsRegexSpace(t[|t| - 1]);
    TokensMatchRendering(t, fills, pre, post);
  }

  /** A text without `|` and with a non-space end is matched by its own pattern wherever it
      occurs verbatim: its own whitespace runs are among the fills. */
  lemma TokensMatchThemselves(t: string, pre: string, post: string)
    requires '|' !in t
    requires t == [] || !IsRegexSpace(t[|t| - 1])
    ensures MatchAt(SnippetPattern(t), pre + t + post, |pre|) == Some(|pre| + |t|)
  {
    var fills := Runs(t);
    assert Respaced(t, fills) == t by { RenderRuns(t); }
    assert SpaceFills(fills) by { RunsAreSpaces(t); }
    TokensMatchRendering(t, fills, pre, post);
  }

  /** In particular the trimmed snippet itself is matched wherever it occurs verbatim. */
  lemma SnippetMatchesItself(src: string, t: string, pre: string, post: string)
    requires t == Trim(src) && '|' !in t
    ensures MatchAt(PatchRegex(src), pre + t + post, |pre|) == Some(|pre| + |t|)
  {
    assert t == [] || !IsRegexSpace(t[|t| - 1]);
    TokensMatchThemselves(t, pre, post);
  }

  // ---------------------------------------------------------------------------------
  // Substitution (lines 436-445)

  /** The replacement for one match: `patchDst`, followed by as many newlines as the match
      has lines more than `patchDst`. When `patchDst` has as many lines or more it is used
      as it is (the source then prints a warning). */
  function Substitute(matched: string, dst: string): (r: string)
    ensures StartsWith(r, dst)
    ensures forall k :: |dst| <= k < |r| ==> r[k] == '\n'
    ensures LineCount(matched) <= LineCount(dst) ==> r == dst
    ensures LineCount(matched) > LineCount(dst) && !EndsWith(dst, "\r") ==> LineCount(r) == LineCount(matched)
  {
    var srcLines := LineCount(matched);
    var dstLines := LineCount(dst);
    if srcLines > dstLines then
      var pad := Newlines(srcLines - dstLines);
      TerminatorsConcat(dst, pad);
      NewlinesTerminators(srcLines - dstLines);
      assert (dst + pad)[..|dst|] == dst;
      dst + pad
    else dst
  }

  /** The exception to line-count parity: a `patchDst` ending in a lone `'\r'` joins the
      first padding newline into one `"\r\n"`, so the replaced span ends up one line short. */
  lemma CarriageReturnCostsOneLine(matched: string, dst: string)
    requires LineCount(matched) > LineCount(dst) && EndsWith(dst, "\r")
    ensures LineCount(Substitute(matched, dst)) == LineCount(matched) - 1
  {
    var k := LineCount(matched) - LineCount(dst);
    TerminatorsConcat(dst, Newlines(k));
    NewlinesTerminators(k);
    assert StartsWith(Newlines(k), "\n");
  }

  /** `applyPatchToKotlinRuntime(runtime, patchSrc, patchDst)` */
  function ApplyPatch(runtime: string, src: string, dst: string): (r: string)
    ensures NoMatchIn(PatchRegex(src), runtime, 0, |runtime| + 1) ==> r == runtime
  {
    Replace(PatchRegex(src), runtime, m => Substitute(m, dst))
  }

  /** On text without carriage returns the patch never removes lines: each replaced span
      keeps its line count or gains lines. */
  lemma ApplyPatchKeepsLines(runtime: string, src: string, dst: string)
    requires '\r' !in runtime && '\r' !in dst
    ensures LineCount(ApplyPatch(runtime, src, dst)) >= LineCount(runtime)
  {
    var p := PatchRegex(src);
    var f := m => Substitute(m, dst);
    forall s | '\r' !in s ensures '\r' !in f(s) && Terminators(f(s)) >= Terminators(s) {
      var r := Substitute(s, dst);
      if LineCount(s) > LineCount(dst) {
        assert r == dst + Newlines(LineCount(s) - LineCount(dst));
        assert !EndsWith(dst, "\r") by { if dst != [] { assert dst[|dst| - 1] in dst; } }
      }
    }
    match Find(p, runtime, 0)
    case None =>
    case Some(m) =>
      SpliceKeepsLines(runtime, MatchesFrom(p, runtime, m), f, 0);
  }

  // ---------------------------------------------------------------------------------
  // The patch resource (lines 448-451)

  /** The line that separates the "before" and "after" snippets: 32 dashes. */
  const Delimiter: string := "--------------------------------"

  datatype PatchOutcome =
    | Patched(text: string)
    | NoDelimiter      // `val (src, dst) = ...split(...)` fails: only one piece

  /** `applyPatchesToKotlinRuntime`, with the resource text as a parameter. Only the first
      two pieces are used; further pieces are ignored. */
  function ApplyPatches(runtime: string, resource: string): (r: PatchOutcome)
    ensures r.NoDelimiter? <==> !Contains(resource, Delimiter)
  {
    var pieces := Split(resource, Delimiter);
    if |pieces| < 2 then
      assert IndexOf(resource, Delimiter, 0).None?;
      NoDelimiter
    else
      assert IndexOf(resource, Delimiter, 0).Some?;
      Patched(ApplyPatch(runtime, pieces[0], pieces[1]))
  }

  /** A resource with a delimiter is applied with its first two pieces. */
  lemma ApplyPatchesFirstTwo(runtime: string, resource: string)
    requires |Split(resource, Delimiter)| >= 2
    ensures ApplyPatches(runtime, resource) ==
            Patched(ApplyPatch(runtime, Split(resource, Delimiter)[0], Split(resource, Delimiter)[1]))
  {
  }

  /** In `before + d + after`, where `d` repeats one character that does not end `before`
      and `before` does not contain `d`, the first occurrence of `d` is right after `before`. */
  lemma FirstOccurrenceAfter(before: string, d: string, after: string)
    requires |d| > 0 && forall k :: 0 <= k < |d| ==> d[k] == d[0]
    requires !Contains(before, d)
    requires before == [] || before[|before| - 1] != d[0]
    ensures IndexOf(before + d + after, d, 0) == Some(|before|)
  {
    var s := before + d + after;
    var n := |before|;
    assert OccursAt(s, d, n) by { assert s[n..n + |d|] == d; }
    forall i: nat | i < n ensures !OccursAt(s, d, i) {
      if i + |d| <= n {
        assert before[i..i + |d|] == s[i..i + |d|];
        assert !OccursAt(before, d, i);
      } else if i + |d| <= |s| {
        assert s[n - 1] == before[n - 1];
        assert s[i..i + |d|][n - 1 - i] == s[n - 1];
      }
    }
  }

  /** A resource laid out as "before", delimiter, "after" is applied with exactly that
      "before" snippet and the part of "after" up to any further delimiter. */
  lemma ApplyPatchesPieces(runtime: string, before: string, after: string)
    requires !Contains(before, Delimiter)
    requires before == [] || before[|before| - 1] != '-'
    ensures ApplyPatches(runtime, before + Delimiter + after) ==
            Patched(ApplyPatch(runtime, before, Split(after, Delimiter)[0]))
  {
    var s := before + Delimiter + after;
    var n := |before|;
    FirstOccurrenceAfter(before, Delimiter, after);
    SplitAtFirst(s, Delimiter, n);
    assert s[..n] == before;
    assert s[n + |Delimiter|..] == after;
  }
}
