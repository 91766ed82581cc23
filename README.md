# KorGE JavaScript target: a Dafny model

This project models the logic of the KorGE Gradle plugin's JavaScript target
(`korge-gradle-plugin/src/main/kotlin/com/soywiz/korge/gradle/targets/js/JavaScript.kt`)
and proves properties of it. It covers four parts of that file.

- **The Kotlin-runtime patcher** (`applyPatchToKotlinRuntime`, `applyPatchesToKotlinRuntime`;
  `patch_engine.dfy`, on top of `regex.dfy` and `text.dfy`).
  - The "before" snippet is trimmed and its metacharacters are escaped by the chain of `replace`
    calls, backslash first. Each whitespace run then becomes `\s*`.
  - The resulting pattern is read as Java reads it.
  - Every match in the runtime text is replaced by the "after" snippet, padded with newlines up to
    the match's line count.
  - The patch resource is split on its 32-dash delimiter.
  - `regex.dfy` holds the part of `java.util.regex` these patterns need: literals, `.`, greedy
    `\s*`, reluctant `.*?` and top-level `|`. Branches are tried in the matcher's backtracking
    order. On top of this sit `Matcher.find` and Kotlin's replace-all loop.
- **The web bundle of `jsWeb` / `jsWebMin`** (`configureJsWeb`; `web_bundle.dfy`, `globs.dfy`).
  - The two exclude profiles, as Ant-style globs with their matching rules.
  - The copy specification, built block by block by a method with the source's loops.
  - The set of files the copy writes.
  - The template choice (a file in the target directory wins over the built-in resource).
  - The files written after the copy.
- **The development server** (`_webServer`, `jsStopWeb`, `runServer`; `dev_server.dfy`).
  - The one server slot is a class whose methods update it in place.
  - The reload counter is raised on every run.
  - The browser address maps `0.0.0.0` to `127.0.0.1`.
- **The webpack packaging of `jsWebMinWebpack`** (`webpack.dfy`).
  - The copy into the webpack folder and its excludes.
  - `getProjectAscendants`, a loop over a linked chain of `Project` objects.
  - `fullJsName`.
  - The `index.html` rewrite that swaps the require.js loader tag for the bundle tag.

### Behaviour worth noting

- **Every match is rewritten.** Kotlin's `Regex.replace` replaces all matches, so the patcher
  rewrites each of them (`Regex.Replace`, `Regex.MatchesFrom`).
- **A dependency that is not an existing plain file is handed to `from(file)`.** A directory is
  then copied as a tree, and a missing file contributes nothing (`WebBundle.Dependency`,
  `WebBundle.Tree`).
- **Equal line counts take the warning branch.** The replacement is used verbatim, and a warning
  printed, whenever it has at least as many lines as the match, an equal count included
  (`PatchEngine.Substitute`).
- **Line parity has one exception.** The padding keeps the replaced span's line count except when
  the "after" snippet ends in a lone `'\r'`. The first padding newline then joins it into one
  `"\r\n"` terminator, and the span comes out one line short
  (`PatchEngine.CarriageReturnCostsOneLine`).
- **The pattern may have alternatives.** `|` is not among the escaped characters, so a snippet
  holding `|` becomes a pattern with several alternatives (`PatchEngine.SplitAlternatives`).

## Model

| member | source | states |
|---|---|---|
| Text.IndexOf | korge-gradle-plugin/src/main/kotlin/com/soywiz/korge/gradle/targets/js/JavaScript.kt:449 | the result is the leftmost occurrence of the delimiter at or after `from`, and `None` exactly when there is none |
| Text.Split | korge-gradle-plugin/src/main/kotlin/com/soywiz/korge/gradle/targets/js/JavaScript.kt:449 | `split` gives at least one piece and no piece contains the delimiter |
| Text.Join | korge-gradle-plugin/src/main/kotlin/com/soywiz/korge/gradle/targets/js/JavaScript.kt:384 | defining function: `joinToString(d)`. `JoinSplit`, `SplitJoin` and `Webpack.JoinSnoc` state what it does |
| Text.JoinSplit | korge-gradle-plugin/src/main/kotlin/com/soywiz/korge/gradle/targets/js/JavaScript.kt:449 | joining the pieces of a split with the delimiter gives the text back |
| Text.SplitFirstTwo | korge-gradle-plugin/src/main/kotlin/com/soywiz/korge/gradle/targets/js/JavaScript.kt:449 | the first two pieces, with the delimiter between them, are a prefix of the resource |
| Text.SplitJoin | korge-gradle-plugin/src/main/kotlin/com/soywiz/korge/gradle/targets/js/JavaScript.kt:384 | splitting a dash-joined list whose items hold no dash gives the items back |
| Text.ReplaceChar | korge-gradle-plugin/src/main/kotlin/com/soywiz/korge/gradle/targets/js/JavaScript.kt:418-430 | a `replace` of a character the text does not contain leaves the text unchanged |
| Text.ReplaceCharConcat | korge-gradle-plugin/src/main/kotlin/com/soywiz/korge/gradle/targets/js/JavaScript.kt:418-430 | a character `replace` distributes over concatenation |
| Text.Terminators | korge-gradle-plugin/src/main/kotlin/com/soywiz/korge/gradle/targets/js/JavaScript.kt:437-438 | defining function: the line terminators `lines()` splits at, `"\r\n"` counted once. Its properties are stated by `TerminatorsNone` and `TerminatorsConcat` |
| Text.TerminatorsNone | korge-gradle-plugin/src/main/kotlin/com/soywiz/korge/gradle/targets/js/JavaScript.kt:437-438 | text has no terminator exactly when it holds neither `'\n'` nor `'\r'`, and never has more terminators than characters |
| Text.LineCount | korge-gradle-plugin/src/main/kotlin/com/soywiz/korge/gradle/targets/js/JavaScript.kt:437-438 | defining function: `lines().size`, one more than the terminators |
| Text.Newlines | korge-gradle-plugin/src/main/kotlin/com/soywiz/korge/gradle/targets/js/JavaScript.kt:440 | `"\n".repeat(n)` has length `n` and is all newlines |
| Text.NewlinesTerminators | korge-gradle-plugin/src/main/kotlin/com/soywiz/korge/gradle/targets/js/JavaScript.kt:440 | `"\n".repeat(n)` holds exactly `n` line terminators |
| Text.TerminatorsConcat | korge-gradle-plugin/src/main/kotlin/com/soywiz/korge/gradle/targets/js/JavaScript.kt:437-438 | the line terminators of `a + b` are those of `a` and of `b`, less one when a `'\r'` ending `a` joins a `'\n'` starting `b` |
| Regex.MatchBranch | korge-gradle-plugin/src/main/kotlin/com/soywiz/korge/gradle/targets/js/JavaScript.kt:431-434 | a match of one branch at `i` ends between `i` and the end of the text |
| Regex.MatchAlternatives | korge-gradle-plugin/src/main/kotlin/com/soywiz/korge/gradle/targets/js/JavaScript.kt:416-434 | the alternatives match at `i` exactly when one of them does, and the match stays inside the text |
| Regex.Find | korge-gradle-plugin/src/main/kotlin/com/soywiz/korge/gradle/targets/js/JavaScript.kt:436 | `find(from)` returns a match at or after `from` with no match before it, and `None` only when no position from `from` to the end matches |
| Regex.MatchesFrom | korge-gradle-plugin/src/main/kotlin/com/soywiz/korge/gradle/targets/js/JavaScript.kt:436 | the matches `replace` visits start with the first one, are in order and do not overlap. Each is the leftmost match after the previous one, and the chain stops only at the end of the text or when no match is left |
| Regex.ChainCons | korge-gradle-plugin/src/main/kotlin/com/soywiz/korge/gradle/targets/js/JavaScript.kt:436 | a match followed by the chain from the next leftmost match is again an ordered replace chain |
| Regex.Replace | korge-gradle-plugin/src/main/kotlin/com/soywiz/korge/gradle/targets/js/JavaScript.kt:436 | with no match anywhere, `replace` returns its input |
| Regex.Splice | korge-gradle-plugin/src/main/kotlin/com/soywiz/korge/gradle/targets/js/JavaScript.kt:436 | defining function: the text the replace loop builds, with the gaps between the matches copied and each match replaced by `f` of it. `SpliceIdentity` and `SpliceKeepsLines` are its properties |
| Regex.SpliceIdentity | korge-gradle-plugin/src/main/kotlin/com/soywiz/korge/gradle/targets/js/JavaScript.kt:436 | splicing ordered spans with the identity gives back the text from the start position |
| Regex.ReplaceIdentity | korge-gradle-plugin/src/main/kotlin/com/soywiz/korge/gradle/targets/js/JavaScript.kt:436 | replacing every match by itself gives the text back: text between matches is copied unchanged and in order |
| Regex.SpliceKeepsLines | korge-gradle-plugin/src/main/kotlin/com/soywiz/korge/gradle/targets/js/JavaScript.kt:436-445 | on text without carriage returns, a splice whose replacements never lose terminators keeps at least the text's terminators |
| Regex.StarTakesRun | korge-gradle-plugin/src/main/kotlin/com/soywiz/korge/gradle/targets/js/JavaScript.kt:431 | greedy `\s*` in front of a whitespace run that ends at a non-space takes the whole run |
| Regex.RenderMatches | korge-gradle-plugin/src/main/kotlin/com/soywiz/korge/gradle/targets/js/JavaScript.kt:431-434 | a branch of literals and `\s*` matches any rendering of itself with whitespace runs, none included, for its `\s*` atoms, and the match ends where the rendering ends |
| Regex.PlainPatternMatches | korge-gradle-plugin/src/main/kotlin/com/soywiz/korge/gradle/targets/js/JavaScript.kt:431-434 | a one-branch pattern of that shape matches every such rendering, wherever it occurs in a text |
| PatchEngine.TrimStart | korge-gradle-plugin/src/main/kotlin/com/soywiz/korge/gradle/targets/js/JavaScript.kt:417 | `trimStart` drops a prefix of whitespace and the result does not start with whitespace |
| PatchEngine.TrimEnd | korge-gradle-plugin/src/main/kotlin/com/soywiz/korge/gradle/targets/js/JavaScript.kt:417 | `trimEnd` drops a suffix of whitespace and the result does not end with whitespace |
| PatchEngine.Trim | korge-gradle-plugin/src/main/kotlin/com/soywiz/korge/gradle/targets/js/JavaScript.kt:417 | the trimmed snippet is no longer than the snippet and neither starts nor ends with whitespace |
| PatchEngine.TrimIsSlice | korge-gradle-plugin/src/main/kotlin/com/soywiz/korge/gradle/targets/js/JavaScript.kt:417 | `trim` returns a slice of the snippet with only whitespace before and after it |
| PatchEngine.EscapeChain | korge-gradle-plugin/src/main/kotlin/com/soywiz/korge/gradle/targets/js/JavaScript.kt:418-430 | defining function: the text passed through `replace(c, "\\" + c)` for each character of the order in turn. `EscapeChainIsEscape` proves it equal to per-character escaping |
| PatchEngine.MetaIsInOrder | korge-gradle-plugin/src/main/kotlin/com/soywiz/korge/gradle/targets/js/JavaScript.kt:418-430 | the `replace` chain escapes exactly the characters `\ . ? [ ( { ) } ] + * $ ^` and not the vertical bar |
| PatchEngine.EscapeChainConcat | korge-gradle-plugin/src/main/kotlin/com/soywiz/korge/gradle/targets/js/JavaScript.kt:418-430 | the `replace` chain distributes over concatenation |
| PatchEngine.EscapeChainUntouched | korge-gradle-plugin/src/main/kotlin/com/soywiz/korge/gradle/targets/js/JavaScript.kt:418-430 | a text holding none of the chain's characters passes through unchanged |
| PatchEngine.EscapeChainOne | korge-gradle-plugin/src/main/kotlin/com/soywiz/korge/gradle/targets/js/JavaScript.kt:418-430 | on one character, a chain of distinct characters with the backslash first escapes it exactly when it is listed, and only once |
| PatchEngine.EscapeOrderDistinct | korge-gradle-plugin/src/main/kotlin/com/soywiz/korge/gradle/targets/js/JavaScript.kt:418-430 | the chain lists each character once and the backslash only first |
| PatchEngine.EscapeChainPerChar | korge-gradle-plugin/src/main/kotlin/com/soywiz/korge/gradle/targets/js/JavaScript.kt:418-430 | such a chain works character by character, from the first character on |
| PatchEngine.MetaChainIsEscape | korge-gradle-plugin/src/main/kotlin/com/soywiz/korge/gradle/targets/js/JavaScript.kt:418-430 | a chain listing exactly the metacharacters, backslash first, equals escaping each character on its own |
| PatchEngine.EscapeChainIsEscape | korge-gradle-plugin/src/main/kotlin/com/soywiz/korge/gradle/targets/js/JavaScript.kt:418-430 | the source's chain prefixes each metacharacter with one backslash and nothing is escaped twice |
| PatchEngine.UnescapeEscape | korge-gradle-plugin/src/main/kotlin/com/soywiz/korge/gradle/targets/js/JavaScript.kt:418-430 | removing the escapes gives back exactly the trimmed snippet |
| PatchEngine.Collapse | korge-gradle-plugin/src/main/kotlin/com/soywiz/korge/gradle/targets/js/JavaScript.kt:431 | defining function: each maximal `\s` run becomes the three characters `\s*`. `CollapseNoRawSpace` and `CompileDerived` are its properties |
| PatchEngine.CollapseNoRawSpace | korge-gradle-plugin/src/main/kotlin/com/soywiz/korge/gradle/targets/js/JavaScript.kt:431 | no `\s` character is left in the collapsed text |
| PatchEngine.DerivePattern | korge-gradle-plugin/src/main/kotlin/com/soywiz/korge/gradle/targets/js/JavaScript.kt:416-431 | defining function: the pattern text handed to `Regex`, that is trimmed, escaped and collapsed. `CompileDerived` states what Java reads it as |
| PatchEngine.Compile | korge-gradle-plugin/src/main/kotlin/com/soywiz/korge/gradle/targets/js/JavaScript.kt:432-434 | defining function: Java's reading of a derived pattern text into alternatives. It reads literals, `\s*`, a backslash before a non-alphanumeric character as that character, and `|` as a separator. It returns `None` for anything else, a bare `.` included. `CompileDerived` and `SplitAlternatives` are its properties |
| PatchEngine.DropSpaces | korge-gradle-plugin/src/main/kotlin/com/soywiz/korge/gradle/targets/js/JavaScript.kt:431 | the leading `\s` run is dropped whole: what is dropped is whitespace and what is left does not start with it |
| PatchEngine.EscapeDropSpaces | korge-gradle-plugin/src/main/kotlin/com/soywiz/korge/gradle/targets/js/JavaScript.kt:418-431 | escaping leaves whitespace runs where they are |
| PatchEngine.CompileDerived | korge-gradle-plugin/src/main/kotlin/com/soywiz/korge/gradle/targets/js/JavaScript.kt:416-434 | the escaped, collapsed snippet always compiles, and to exactly the snippet's own tokens: literals, `\s*` for each whitespace run, and an alternative separator for each vertical bar |
| PatchEngine.SplitAlternatives | korge-gradle-plugin/src/main/kotlin/com/soywiz/korge/gradle/targets/js/JavaScript.kt:416-434 | a pattern always has at least one alternative |
| PatchEngine.PatchRegex | korge-gradle-plugin/src/main/kotlin/com/soywiz/korge/gradle/targets/js/JavaScript.kt:416-434 | the regex built from `patchSrc` is the case-insensitive pattern of the trimmed snippet's tokens |
| PatchEngine.SingleAlternative | korge-gradle-plugin/src/main/kotlin/com/soywiz/korge/gradle/targets/js/JavaScript.kt:416-434 | a snippet without a vertical bar gives a pattern with one alternative |
| PatchEngine.TokensPlain | korge-gradle-plugin/src/main/kotlin/com/soywiz/korge/gradle/targets/js/JavaScript.kt:416-431 | a trimmed snippet without a vertical bar gives a branch of literals and `\s*` atoms, each `\s*` followed by a literal |
| PatchEngine.RenderRuns | korge-gradle-plugin/src/main/kotlin/com/soywiz/korge/gradle/targets/js/JavaScript.kt:431 | for a snippet without `|`, putting the snippet's own whitespace runs back in place of its `\s*` atoms gives the snippet |
| PatchEngine.RunsAreSpaces | korge-gradle-plugin/src/main/kotlin/com/soywiz/korge/gradle/targets/js/JavaScript.kt:431 | the whitespace runs of a snippet are whitespace |
| PatchEngine.TokensMatchRendering | korge-gradle-plugin/src/main/kotlin/com/soywiz/korge/gradle/targets/js/JavaScript.kt:416-436 | the pattern of a trimmed snippet without a vertical bar matches the snippet with any whitespace runs in place of its own, covering exactly that text |
| PatchEngine.RespacedSnippetMatches | korge-gradle-plugin/src/main/kotlin/com/soywiz/korge/gradle/targets/js/JavaScript.kt:416-436 | whitespace-insensitivity: `PatchRegex(patchSrc)` matches, wherever it occurs, the trimmed snippet with any whitespace, none included, in place of each whitespace run |
| PatchEngine.TokensMatchThemselves | korge-gradle-plugin/src/main/kotlin/com/soywiz/korge/gradle/targets/js/JavaScript.kt:416-436 | for a snippet without `|` that does not end in whitespace, its pattern matches the snippet itself, verbatim, wherever it occurs |
| PatchEngine.SnippetMatchesItself | korge-gradle-plugin/src/main/kotlin/com/soywiz/korge/gradle/targets/js/JavaScript.kt:416-436 | `PatchRegex(patchSrc)` matches the trimmed snippet wherever it occurs, and covers exactly it |
| PatchEngine.Substitute | korge-gradle-plugin/src/main/kotlin/com/soywiz/korge/gradle/targets/js/JavaScript.kt:437-444 | the replacement starts with `patchDst` and only newlines follow. When the match has no more lines, it is `patchDst` verbatim. Otherwise it has exactly the match's line count, unless `patchDst` ends in `'\r'` |
| PatchEngine.CarriageReturnCostsOneLine | korge-gradle-plugin/src/main/kotlin/com/soywiz/korge/gradle/targets/js/JavaScript.kt:437-440 | when `patchDst` ends in `'\r'` and is padded, the result has one line fewer than the match |
| PatchEngine.ApplyPatch | korge-gradle-plugin/src/main/kotlin/com/soywiz/korge/gradle/targets/js/JavaScript.kt:415-446 | a runtime in which the pattern does not occur is returned unchanged |
| PatchEngine.ApplyPatchKeepsLines | korge-gradle-plugin/src/main/kotlin/com/soywiz/korge/gradle/targets/js/JavaScript.kt:436-445 | on text without carriage returns, patching never reduces the runtime's line count |
| PatchEngine.ApplyPatches | korge-gradle-plugin/src/main/kotlin/com/soywiz/korge/gradle/targets/js/JavaScript.kt:448-451 | the destructuring fails exactly when the resource holds no 32-dash delimiter |
| PatchEngine.FirstOccurrenceAfter | korge-gradle-plugin/src/main/kotlin/com/soywiz/korge/gradle/targets/js/JavaScript.kt:449 | in `before + delimiter + after`, the first delimiter is the one right after `before` when `before` holds none and does not end in a dash |
| PatchEngine.ApplyPatchesPieces | korge-gradle-plugin/src/main/kotlin/com/soywiz/korge/gradle/targets/js/JavaScript.kt:448-451 | for a `before` that holds no delimiter and does not end in `-`, a resource `before + delimiter + after` patches with `before` as `patchSrc` and with `after`, up to any further delimiter, as `patchDst` |
| Globs.LiteralSegment | korge-gradle-plugin/src/main/kotlin/com/soywiz/korge/gradle/targets/js/JavaScript.kt:185-186 | a wildcard-free pattern segment matches itself and nothing else |
| Globs.StarSuffixSegment | korge-gradle-plugin/src/main/kotlin/com/soywiz/korge/gradle/targets/js/JavaScript.kt:185-186 | `*<suffix>` matches exactly the names that end with the suffix |
| Globs.AnyDepth | korge-gradle-plugin/src/main/kotlin/com/soywiz/korge/gradle/targets/js/JavaScript.kt:185-186 | `**/q` matches exactly the paths whose last segment `q` matches |
| Globs.SuffixGlob | korge-gradle-plugin/src/main/kotlin/com/soywiz/korge/gradle/targets/js/JavaScript.kt:185-186 | `**/*<suffix>` selects exactly the files, at any depth, whose name ends with the suffix |
| Globs.NameGlob | korge-gradle-plugin/src/main/kotlin/com/soywiz/korge/gradle/targets/js/JavaScript.kt:368 | `**/<name>` selects exactly the files, at any depth, called `name` |
| WebBundle.WebFilter | korge-gradle-plugin/src/main/kotlin/com/soywiz/korge/gradle/targets/js/JavaScript.kt:189-196 | defining function: `configureWeb()`, which excludes the normal patterns, plus `**/*.js` when minimized. The constants `DceFilter` (line 215) and `MinJsOnly` (lines 222 and 225) are the other two filters. `ExcludesNormalNames`, `ExcludesAllNames` and `MinJsNames` say what they select |
| WebBundle.ExcludesNormalNames | korge-gradle-plugin/src/main/kotlin/com/soywiz/korge/gradle/targets/js/JavaScript.kt:185 | the normal excludes match exactly the files named `*.kotlin_metadata`, `*.kotlin_module`, `*.MF`, `*.kjsm`, `*.map` or `*.meta.js` |
| WebBundle.ExcludesAllNames | korge-gradle-plugin/src/main/kotlin/com/soywiz/korge/gradle/targets/js/JavaScript.kt:185-187 | the minimized excludes match exactly those names and every `*.js` |
| WebBundle.MinJsNames | korge-gradle-plugin/src/main/kotlin/com/soywiz/korge/gradle/targets/js/JavaScript.kt:222 | `**/*.min.js` selects exactly the files named `*.min.js` |
| WebBundle.MinifiedIsNotMetadata | korge-gradle-plugin/src/main/kotlin/com/soywiz/korge/gradle/targets/js/JavaScript.kt:185-187 | a `*.min.js` name is a `*.js` name and is never normally excluded |
| WebBundle.CopySpec | korge-gradle-plugin/src/main/kotlin/com/soywiz/korge/gradle/targets/js/JavaScript.kt:209-236 | defining function: the `from` blocks of the copy in the source's order, used as the reference for `BuildCopySpec` |
| WebBundle.Plan | korge-gradle-plugin/src/main/kotlin/com/soywiz/korge/gradle/targets/js/JavaScript.kt:209-236 | defining function: the paths the copy writes, each being a file of some block that passes that block's filter. `InPlan`, `NoMetadataInBundle` and `DependencyMinJsKept` are its properties |
| WebBundle.BuildCopySpec | korge-gradle-plugin/src/main/kotlin/com/soywiz/korge/gradle/targets/js/JavaScript.kt:210-236 | the blocks built by the `from` calls are, in order: the DCE output (minimized only), the main outputs, the npm modules, two blocks per dependency, and one block per resource set of the js and then the metadata target |
| WebBundle.AddDependencies | korge-gradle-plugin/src/main/kotlin/com/soywiz/korge/gradle/targets/js/JavaScript.kt:219-227 | the loop appends, per dependency, a block under the profile and a `**/*.min.js`-only block over the same tree |
| WebBundle.AddResources | korge-gradle-plugin/src/main/kotlin/com/soywiz/korge/gradle/targets/js/JavaScript.kt:229-234 | the nested loops append one block under the profile per source set, target by target |
| WebBundle.DependencySourcesFrom | korge-gradle-plugin/src/main/kotlin/com/soywiz/korge/gradle/targets/js/JavaScript.kt:219-227 | every dependency block has the profile's filter, or is the `*.min.js` pass over one dependency's tree |
| WebBundle.ResourceSourcesFiltered | korge-gradle-plugin/src/main/kotlin/com/soywiz/korge/gradle/targets/js/JavaScript.kt:229-234 | every resource block has the profile's filter |
| WebBundle.SpecFromInputs | korge-gradle-plugin/src/main/kotlin/com/soywiz/korge/gradle/targets/js/JavaScript.kt:212-234 | every block is the DCE output, a block under the profile, or a dependency's `*.min.js` pass |
| WebBundle.NoMetadataInBundle | korge-gradle-plugin/src/main/kotlin/com/soywiz/korge/gradle/targets/js/JavaScript.kt:185-234 | neither bundle holds compiler metadata, manifests or source maps, even through the `*.min.js` pass |
| WebBundle.MinimizedScripts | korge-gradle-plugin/src/main/kotlin/com/soywiz/korge/gradle/targets/js/JavaScript.kt:189-234 | every script in the minimized bundle is a DCE output or a dependency's `*.min.js` |
| WebBundle.DependencyBlocksIn | korge-gradle-plugin/src/main/kotlin/com/soywiz/korge/gradle/targets/js/JavaScript.kt:219-227 | both blocks of every dependency are in the specification |
| WebBundle.InPlan | korge-gradle-plugin/src/main/kotlin/com/soywiz/korge/gradle/targets/js/JavaScript.kt:210-236 | a file of some block that passes the block's filter is written |
| WebBundle.DependencyMinJsKept | korge-gradle-plugin/src/main/kotlin/com/soywiz/korge/gradle/targets/js/JavaScript.kt:219-227 | both bundles keep every `*.min.js` of every dependency, archive or not |
| WebBundle.MainOutputKept | korge-gradle-plugin/src/main/kotlin/com/soywiz/korge/gradle/targets/js/JavaScript.kt:189-217 | every main output the profile does not exclude is written |
| WebBundle.NormalBundleExample | korge-gradle-plugin/src/main/kotlin/com/soywiz/korge/gradle/targets/js/JavaScript.kt:185-236 | the normal bundle of outputs `app.js`, `app.js.map` and `app.kotlin_metadata` is exactly `{app.js}` |
| WebBundle.ExampleOnlyScript | korge-gradle-plugin/src/main/kotlin/com/soywiz/korge/gradle/targets/js/JavaScript.kt:185-236 | no file other than `app.js` is written for those outputs |
| WebBundle.ResolveTemplate | korge-gradle-plugin/src/main/kotlin/com/soywiz/korge/gradle/targets/js/JavaScript.kt:239-249 | a template file in the target directory is used exactly when one is there; otherwise the built-in resource of that name is used |
| WebBundle.NameWithoutExtension | korge-gradle-plugin/src/main/kotlin/com/soywiz/korge/gradle/targets/js/JavaScript.kt:271 | the result is a prefix of the name, ending at its last dot, and is the whole name when there is no dot |
| WebBundle.FinishBundle | korge-gradle-plugin/src/main/kotlin/com/soywiz/korge/gradle/targets/js/JavaScript.kt:239-277 | a missing `kotlin.js` or a delimiter-less patch resource stops the step, and each of these happens exactly when its cause holds. Otherwise exactly these files are written: `kotlin.js`, recorded as the runtime with a "before" and "after" snippet that are delimiter-free and, with the delimiter between them, form a prefix of the resource; `index.html` from the resolved template with OUTPUT and TITLE; `require.min.js` from its template; and icons at 16 and 180. That the snippets are exactly the first two pieces of the split is stated by `FinishBundleRuntime` |
| WebBundle.FinishBundleRuntime | korge-gradle-plugin/src/main/kotlin/com/soywiz/korge/gradle/targets/js/JavaScript.kt:268 | with `kotlin.js` present and a delimiter in the resource, the step finishes and records the runtime patched with the resource's first two pieces |
| WebBundle.FinishBundlePatchesRuntime | korge-gradle-plugin/src/main/kotlin/com/soywiz/korge/gradle/targets/js/JavaScript.kt:448-451 | the step finishes exactly when `kotlin.js` is present and `applyPatchesToKotlinRuntime` finds its delimiter, and the recorded `kotlin.js` is then that function's result |
| WebBundle.MinimizedIgnoresCustomLoader | korge-gradle-plugin/src/main/kotlin/com/soywiz/korge/gradle/targets/js/JavaScript.kt:240-248 | a custom `require.min.v2.template.js` resource never reaches the minimized bundle, so the built-in loader is written |
| WebBundle.ResourceIndexTemplateUsed | korge-gradle-plugin/src/main/kotlin/com/soywiz/korge/gradle/targets/js/JavaScript.kt:229-242 | a custom `index.v2.template.html` js resource reaches both bundles |
| WebBundle.ResourceSourceIn | korge-gradle-plugin/src/main/kotlin/com/soywiz/korge/gradle/targets/js/JavaScript.kt:229-234 | every resource set has its block in the specification |
| DevServer.ServerHandle.constructor | korge-gradle-plugin/src/main/kotlin/com/soywiz/korge/gradle/targets/js/JavaScript.kt:303 | a new server runs on its port with its counter at 0 |
| DevServer.ServerHandle.IncrementVersion | korge-gradle-plugin/src/main/kotlin/com/soywiz/korge/gradle/targets/js/JavaScript.kt:323 | `incrementAndGet` raises the counter by one and returns the new value |
| DevServer.ServerHandle.Stop | korge-gradle-plugin/src/main/kotlin/com/soywiz/korge/gradle/targets/js/JavaScript.kt:294 | `stop(0)` stops the server and leaves its counter |
| DevServer.OpenAddress | korge-gradle-plugin/src/main/kotlin/com/soywiz/korge/gradle/targets/js/JavaScript.kt:306-309 | the browser is never sent to `0.0.0.0`, and any other address passes unchanged |
| DevServer.DecimalText | korge-gradle-plugin/src/main/kotlin/com/soywiz/korge/gradle/targets/js/JavaScript.kt:310 | the port is printed as decimal digits without a leading zero |
| DevServer.DecimalRoundTrip | korge-gradle-plugin/src/main/kotlin/com/soywiz/korge/gradle/targets/js/JavaScript.kt:310 | reading the printed port back gives the port |
| DevServer.BrowserUrl | korge-gradle-plugin/src/main/kotlin/com/soywiz/korge/gradle/targets/js/JavaScript.kt:310 | the URL starts with `http://`, the open address and `:`, ends with `:`, the port and `/index.html`, and is exactly as long as those parts together, so nothing lies between the address and the port |
| DevServer.WebServerSlot.constructor | korge-gradle-plugin/src/main/kotlin/com/soywiz/korge/gradle/targets/js/JavaScript.kt:37 | the slot starts empty |
| DevServer.WebServerSlot.StopWeb | korge-gradle-plugin/src/main/kotlin/com/soywiz/korge/gradle/targets/js/JavaScript.kt:291-297 | `jsStopWeb` stops the held server, if any, and empties the slot; on an empty slot it only keeps it empty |
| DevServer.WebServerSlot.RunServer | korge-gradle-plugin/src/main/kotlin/com/soywiz/korge/gradle/targets/js/JavaScript.kt:299-324 | a held server is kept and its counter raised by exactly one. Otherwise a failed bind changes nothing; a non-blocking run stores a new server with counter 1 and opens its URL; a blocking run ends stopped with the slot empty. The slot invariant is kept |
| DevServer.ReloadScenario | korge-gradle-plugin/src/main/kotlin/com/soywiz/korge/gradle/targets/js/JavaScript.kt:291-324 | continuous builds: the first run opens the server at version 1, later runs reuse it at 2 and 3, and stopping twice empties the slot |
| Webpack.Project.Root | korge-gradle-plugin/src/main/kotlin/com/soywiz/korge/gradle/targets/js/JavaScript.kt:373-381 | a root project has no parent |
| Webpack.Project.Child | korge-gradle-plugin/src/main/kotlin/com/soywiz/korge/gradle/targets/js/JavaScript.kt:373-381 | a subproject's parent is the given project |
| Webpack.ChainLinks | korge-gradle-plugin/src/main/kotlin/com/soywiz/korge/gradle/targets/js/JavaScript.kt:373-381 | along a project's ancestor chain each project is followed by its parent, and the chain ends at the root |
| Webpack.GetProjectAscendants | korge-gradle-plugin/src/main/kotlin/com/soywiz/korge/gradle/targets/js/JavaScript.kt:373-381 | the loop returns the project, then its parent, and so on up to the root, in that order |
| Webpack.Reverse | korge-gradle-plugin/src/main/kotlin/com/soywiz/korge/gradle/targets/js/JavaScript.kt:384 | `reversed()` keeps the length and puts the k-th element from the end at position k |
| Webpack.Names | korge-gradle-plugin/src/main/kotlin/com/soywiz/korge/gradle/targets/js/JavaScript.kt:384 | `map { it.name }` gives each project's name at its position |
| Webpack.JoinedNames | korge-gradle-plugin/src/main/kotlin/com/soywiz/korge/gradle/targets/js/JavaScript.kt:384 | the names of the reversed chain, dash-joined, are the parent's entry name, a dash and the project's own name |
| Webpack.JoinSnoc | korge-gradle-plugin/src/main/kotlin/com/soywiz/korge/gradle/targets/js/JavaScript.kt:384 | joining a list with one more item appends the delimiter and that item |
| Webpack.QualifiedName | korge-gradle-plugin/src/main/kotlin/com/soywiz/korge/gradle/targets/js/JavaScript.kt:384 | defining function and independent reference: the project's name after its parent's qualified name and a dash, used to state `FullJsName` |
| Webpack.FullJsName | korge-gradle-plugin/src/main/kotlin/com/soywiz/korge/gradle/targets/js/JavaScript.kt:384 | `fullJsName` is the root's name, then each descendant's name down to the project, dash-separated |
| Webpack.QualifiedNameSplits | korge-gradle-plugin/src/main/kotlin/com/soywiz/korge/gradle/targets/js/JavaScript.kt:384 | when no project name holds a dash, the entry name splits back into the hierarchy's names, root first |
| Webpack.WebpackCopy | korge-gradle-plugin/src/main/kotlin/com/soywiz/korge/gradle/targets/js/JavaScript.kt:365-369 | defining function: the files of the minimized bundle that the webpack copy keeps. `WebpackCopyNames` gives the exact condition |
| Webpack.WebpackCopyNames | korge-gradle-plugin/src/main/kotlin/com/soywiz/korge/gradle/targets/js/JavaScript.kt:365-369 | a file of the minimized bundle reaches the webpack folder exactly when it is not a script, not `index.template.html` and not `index.html` |
| Webpack.V2TemplateCopied | korge-gradle-plugin/src/main/kotlin/com/soywiz/korge/gradle/targets/js/JavaScript.kt:368 | `index.v2.template.html` is not among the excludes and is copied |
| Webpack.TagPattern | korge-gradle-plugin/src/main/kotlin/com/soywiz/korge/gradle/targets/js/JavaScript.kt:410 | defining function: the compiled tag regex, literal opening text, a reluctant `(.*?)` and literal closing text, case-sensitive. The constant `ScriptTagPattern` is this pattern for the source's tag. `TagMatches` and `FindsTag` are its properties |
| Webpack.LiteralTokens | korge-gradle-plugin/src/main/kotlin/com/soywiz/korge/gradle/targets/js/JavaScript.kt:410 | in the pattern text every unescaped `.` is the any-character atom and every other character a literal |
| Webpack.RewriteIndexHtml | korge-gradle-plugin/src/main/kotlin/com/soywiz/korge/gradle/targets/js/JavaScript.kt:409-410 | a page without a loader tag match is left unchanged |
| Webpack.LiteralTokensMatch | korge-gradle-plugin/src/main/kotlin/com/soywiz/korge/gradle/targets/js/JavaScript.kt:410 | the literal part of the pattern consumes exactly any text that fits it |
| Webpack.LiteralTokensNeedText | korge-gradle-plugin/src/main/kotlin/com/soywiz/korge/gradle/targets/js/JavaScript.kt:410 | without dots, the literal part matches only its own text |
| Webpack.LazyStops | korge-gradle-plugin/src/main/kotlin/com/soywiz/korge/gradle/targets/js/JavaScript.kt:410 | the reluctant `(.*?)` stops at the first place where the rest of the pattern matches |
| Webpack.CloseNeedsQuote | korge-gradle-plugin/src/main/kotlin/com/soywiz/korge/gradle/targets/js/JavaScript.kt:410 | the closing part cannot match where the text has no closing quote |
| Webpack.MatchNeedsOpen | korge-gradle-plugin/src/main/kotlin/com/soywiz/korge/gradle/targets/js/JavaScript.kt:410 | every match starts with `<script data-main="` |
| Webpack.TagMatches | korge-gradle-plugin/src/main/kotlin/com/soywiz/korge/gradle/targets/js/JavaScript.kt:410 | a loader tag whose attribute holds no quote and no line break is matched as a whole |
| Webpack.NoStraddle | korge-gradle-plugin/src/main/kotlin/com/soywiz/korge/gradle/targets/js/JavaScript.kt:410 | the opening text cannot occur across a `<` strictly inside it |
| Webpack.NoMatchBeforeTag | korge-gradle-plugin/src/main/kotlin/com/soywiz/korge/gradle/targets/js/JavaScript.kt:410 | no match starts before the first opening text |
| Webpack.NoMatchAfter | korge-gradle-plugin/src/main/kotlin/com/soywiz/korge/gradle/targets/js/JavaScript.kt:410 | no match starts in a part that holds no opening text |
| Webpack.FindsTag | korge-gradle-plugin/src/main/kotlin/com/soywiz/korge/gradle/targets/js/JavaScript.kt:410 | the first match in the page is the loader tag |
| Webpack.TagReplaced | korge-gradle-plugin/src/main/kotlin/com/soywiz/korge/gradle/targets/js/JavaScript.kt:410 | a page with one such tag has that tag replaced, and everything before and after is kept |
| Webpack.FitsAppend | korge-gradle-plugin/src/main/kotlin/com/soywiz/korge/gradle/targets/js/JavaScript.kt:410 | texts that fit two pattern pieces fit their concatenation |
| Webpack.LoaderTagReplaced | korge-gradle-plugin/src/main/kotlin/com/soywiz/korge/gradle/targets/js/JavaScript.kt:409-410 | a page with one require.js loader tag loads `bundle.js` instead, and nothing else changes |
| Webpack.DotsAreWildcards | korge-gradle-plugin/src/main/kotlin/com/soywiz/korge/gradle/targets/js/JavaScript.kt:410 | the unescaped dots of `require.min.js` are wildcards: a `require-min-js` loader is replaced as well |
| Webpack.NoLoaderUnchanged | korge-gradle-plugin/src/main/kotlin/com/soywiz/korge/gradle/targets/js/JavaScript.kt:409-410 | a page without `<script data-main="` is copied unchanged |

## Left out

- File and resource I/O (`readText`, `writeText`, `getResourceString`, `getResourceBytes`) is not modelled as I/O. File contents and the patch resource are parameters, and a target directory is a map from relative path to text.
- The Gradle `copy` machinery is not modelled: its duplicate strategy, file contents, the pruning of excluded directories, and its default excludes (`**/.DS_Store`, `**/.gitignore`, `**/*~`, `**/.git/**` and the rest of Ant's list). `Plan` is therefore a superset of what Gradle writes: `NoMetadataInBundle` still holds of the real bundle, but `MainOutputKept` does not hold for a main output with such a name. The bundle is the set of relative paths written, and a directory appears only as a parent of a written file (`includeEmptyDirs = false`).
- `zipTree`'s extraction of archives is not modelled: an archive is given by its entries.
- The test, not the outcome, of `file.exists() && !file.isDirectory` is left out: a dependency is already classified as an archive, a directory or missing.
- Groovy's `SimpleTemplateEngine` is not modelled: `index.html` is recorded as its template with OUTPUT and TITLE bound, not as the rendered text.
- `korge.getIconBytes` (image resampling) is not modelled: an icon is recorded by its size.
- `staticHttpServer`, socket binding and `openBrowser` are not modelled. The bind is a parameter, either the port or a failure, and the URL opened is returned. An exception thrown by `openBrowser` is not modelled.
- `DecoratedHttpServer` is not part of this model. Its counter is taken to start at 0.
- The `Thread.sleep` loop of a blocking run is not modelled: the run ends as when the build is interrupted.
- The `println` diagnostics are not modelled, including the warning for a replacement with as many lines as the match or more.
- Threads are not modelled.
- Writing `webpack.config.js` and running webpack through `nodeExec` (lines 385-407) are shell-outs and are not modelled. So is the `jsWebMinWebpack` task's wiring.
- Task registration, task dependencies, the Kotlin compiler configuration and the Node/npm tasks of JavaScript.kt are build wiring with no behaviour of their own, and are not modelled.
- Strings are sequences of Dafny `char`, not UTF-16 code units.
- The regex fragment covers literals, `.`, `\s*`, `.*?` and `|`. `Compile` reads only what a derived runtime pattern holds: literals, `\s*`, escaped characters and `|`. Any other construct, a bare `.` included, gives `None`. The `.` and `.*?` atoms occur only in the webpack tag pattern, which is built directly as `Webpack.TagPattern` and is never read by `Compile`. The source's IGNORE_CASE is Unicode-aware (Kotlin adds UNICODE_CASE). The model folds 'A'..'Z' only, so text that differs from the snippet only in the case of a non-ASCII letter (`é` against `É`, `s` against `ſ`) matches in the source and not in the model.
- MULTILINE is not modelled, because it only affects `^` and `$`, which a derived pattern never holds unescaped.
- PatchEngine.RespacedSnippetMatches: stated only for snippets without `|`. With `|` the pattern has several alternatives, and an earlier alternative can win at a position.
- PatchEngine.TokensMatchRendering: stated only for snippets without `|`, for the same reason.
- PatchEngine.TokensMatchThemselves: stated only for snippets without `|` that do not end in whitespace. With `|` an earlier alternative can win: in `a|ab` the pattern matches `a`, not the whole text. A trailing whitespace run becomes a final `\s*`, which would also take whitespace after the snippet. The trimmed snippet the source uses never ends in whitespace (`SnippetMatchesItself`).
- PatchEngine.SnippetMatchesItself: stated only for snippets without `|`, for the same reason.
- PatchEngine.ApplyPatchKeepsLines: stated only for a runtime and a `patchDst` without carriage returns. A `'\r'` next to a match boundary can join a `'\n'` across it and change the count.
- PatchEngine.ApplyPatch: its own contract states only the no-match case. Line parity and matching are stated by the lemmas beside it.
- Regex.SpliceKeepsLines: stated only for text without carriage returns, for the same reason as ApplyPatchKeepsLines.
- Webpack.LoaderTagReplaced: stated for a page whose `data-main` value holds no quote or line break, and with no other `<script data-main="` before or after the tag.
- WebBundle.FinishBundle: its own contract pins the recorded snippets only as a delimiter-free "before" and "after" that, with the delimiter between them, form a prefix of the patch resource. That they are exactly the first two pieces of the split is stated by `FinishBundleRuntime`, and that the recorded `kotlin.js` is the patcher's result by `FinishBundlePatchesRuntime`. Proving that equality inside the function's own contract was too costly for the verifier.
- Webpack.RewriteIndexHtml: its own contract states only the no-match case. The replacement of a loader tag is stated by `LoaderTagReplaced`.
