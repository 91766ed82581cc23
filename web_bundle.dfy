/** The web bundle of the `jsWeb` and `jsWebMin` tasks (`configureJsWeb` in JavaScript.kt):
    the copy specification built from the build's outputs, the set of files that copy
    writes into the target directory, and the files written there afterwards. */
module WebBundle {
  import opened Text
  import opened Globs
  import PatchEngine

  // ---------------------------------------------------------------------------------
  // The exclude profiles

  const ExcludesNormal: seq<Glob> :=
    [AnySuffix(".kotlin_metadata"), AnySuffix(".kotlin_module"), AnySuffix(".MF"),
     AnySuffix(".kjsm"), AnySuffix(".map"), AnySuffix(".meta.js")]
  const ExcludesJs: seq<Glob> := [AnySuffix(".js")]
  const ExcludesAll: seq<Glob> := ExcludesNormal + ExcludesJs

  // `**/*.min.js`, the only include of the second pass over each dependency.
  const MinJs: Glob := AnySuffix(".min.js")

  /** The file names the normal profile leaves out: compiler metadata, manifests and
      source maps. */
  predicate NormallyExcludedName(name: string) {
    EndsWith(name, ".kotlin_metadata") || EndsWith(name, ".kotlin_module") || EndsWith(name, ".MF") ||
    EndsWith(name, ".kjsm") || EndsWith(name, ".map") || EndsWith(name, ".meta.js")
  }

  /** `configureWeb()`: the minimized bundle also leaves out every script. */
  function WebFilter(minimized: bool): Filter {
    Filter([], if minimized then ExcludesAll else ExcludesNormal)
  }

  /** The filter of the dead-code-eliminated scripts, copied into the minimized bundle only. */
  const DceFilter: Filter := Filter([], ExcludesNormal)

  const MinJsOnly: Filter := Filter([MinJs], [])

  /** The normal exclude patterns select exactly the normally excluded file names. */
  lemma ExcludesNormalNames(path: RelPath)
    ensures MatchesAny(ExcludesNormal, path) <==> path != [] && NormallyExcludedName(FileName(path))
  {
    if MatchesAny(ExcludesNormal, path) {
      var k :| 0 <= k < |ExcludesNormal| && GlobMatches(ExcludesNormal[k], path);
      NormalGlobMatches(k, path);
    }
    if path != [] && NormallyExcludedName(FileName(path)) {
      NormalNameMatched(path);
    }
  }

  /** Each normal exclude pattern selects only normally excluded names. */
  lemma NormalGlobMatches(k: nat, path: RelPath)
    requires k < |ExcludesNormal| && GlobMatches(ExcludesNormal[k], path)
    ensures path != [] && NormallyExcludedName(FileName(path))
  {
    LiteralSuffixes();
    if k == 0 { SuffixGlob(".kotlin_metadata", path); }
    else if k == 1 { SuffixGlob(".kotlin_module", path); }
    else if k == 2 { SuffixGlob(".MF", path); }
    else if k == 3 { SuffixGlob(".kjsm", path); }
    else if k == 4 { SuffixGlob(".map", path); }
    else { SuffixGlob(".meta.js", path); }
  }

  /** Every normally excluded name is selected by one of the normal exclude patterns. */
  lemma NormalNameMatched(path: RelPath)
    requires path != [] && NormallyExcludedName(FileName(path))
    ensures MatchesAny(ExcludesNormal, path)
  {
    LiteralSuffixes();
    var n := FileName(path);
    if EndsWith(n, ".kotlin_metadata") { SuffixPatternMatches(ExcludesNormal, 0, ".kotlin_metadata", path); }
    if EndsWith(n, ".kotlin_module") { SuffixPatternMatches(ExcludesNormal, 1, ".kotlin_module", path); }
    if EndsWith(n, ".MF") { SuffixPatternMatches(ExcludesNormal, 2, ".MF", path); }
    if EndsWith(n, ".kjsm") { SuffixPatternMatches(ExcludesNormal, 3, ".kjsm", path); }
    if EndsWith(n, ".map") { SuffixPatternMatches(ExcludesNormal, 4, ".map", path); }
    if EndsWith(n, ".meta.js") { SuffixPatternMatches(ExcludesNormal, 5, ".meta.js", path); }
  }

  /** A file whose name ends with the suffix of the `k`-th pattern matches the list. */
  lemma SuffixPatternMatches(gs: seq<Glob>, k: nat, suffix: string, path: RelPath)
    requires k < |gs| && gs[k] == AnySuffix(suffix) && Literal(suffix)
    requires path != [] && EndsWith(FileName(path), suffix)
    ensures MatchesAny(gs, path)
  {
    SuffixGlob(suffix, path);
    assert GlobMatches(gs[k], path);
  }

  /** The minimized profile leaves out the normally excluded names and every `.js` file. */
  lemma ExcludesAllNames(path: RelPath)
    ensures MatchesAny(ExcludesAll, path) <==>
            path != [] && (NormallyExcludedName(FileName(path)) || EndsWith(FileName(path), ".js"))
  {
    ExcludesNormalNames(path);
    LiteralSuffixes();
    SuffixGlob(".js", path);
    if MatchesAny(ExcludesAll, path) {
      var k :| 0 <= k < |ExcludesAll| && GlobMatches(ExcludesAll[k], path);
      if k < |ExcludesNormal| {
        assert ExcludesAll[k] == ExcludesNormal[k];
      } else {
        assert ExcludesAll[k] == AnySuffix(".js");
      }
    }
    if path != [] && EndsWith(FileName(path), ".js") {
      assert ExcludesAll[|ExcludesNormal|] == AnySuffix(".js");
    }
    if MatchesAny(ExcludesNormal, path) {
      var k :| 0 <= k < |ExcludesNormal| && GlobMatches(ExcludesNormal[k], path);
      assert ExcludesAll[k] == ExcludesNormal[k];
    }
  }

  // `**/*.min.js` selects the files whose name ends with `.min.js`.
  lemma MinJsNames(path: RelPath)
    ensures GlobMatches(MinJs, path) <==> path != [] && EndsWith(FileName(path), ".min.js")
  {
    LiteralSuffixes();
    SuffixGlob(".min.js", path);
  }

  lemma LiteralSuffixes()
    ensures Literal(".kotlin_metadata") && Literal(".kotlin_module") && Literal(".MF")
    ensures Literal(".kjsm") && Literal(".map") && Literal(".meta.js") && Literal(".js") && Literal(".min.js")
  {
    assert forall c :: c in ".kotlin_metadata" ==> c != '*' && c != '?';
    assert forall c :: c in ".kotlin_module" ==> c != '*' && c != '?';
    assert forall c :: c in ".meta.js" ==> c != '*' && c != '?';
    assert forall c :: c in ".min.js" ==> c != '*' && c != '?';
  }

  /** A minified script is never a normally excluded file, so the second pass over a
      dependency brings back nothing the first pass left out for being metadata. */
  lemma MinifiedIsNotMetadata(name: string)
    requires EndsWith(name, ".min.js")
    ensures !NormallyExcludedName(name)
    ensures EndsWith(name, ".js")
  {
    var n := |name|;
    assert name[n - 7..] == ".min.js";
    assert name[n - 4] == 'n' && name[n - 3] == '.' && name[n - 2] == 'j' && name[n - 1] == 's';
    assert name[n - 3..] == ".js";
    var m := ".min.js";
    EndsWithDiffer(name, m, ".kotlin_metadata", 0);
    EndsWithDiffer(name, m, ".kotlin_module", 0);
    EndsWithDiffer(name, m, ".MF", 0);
    EndsWithDiffer(name, m, ".kjsm", 0);
    EndsWithDiffer(name, m, ".map", 0);
    EndsWithDiffer(name, m, ".meta.js", 3);
  }

  /** A name that ends with `a` does not end with a `b` that differs from `a` in the
      `k`-th character from the end. */
  lemma EndsWithDiffer(name: string, a: string, b: string, k: nat)
    requires EndsWith(name, a) && k < |a| && k < |b| && a[|a| - 1 - k] != b[|b| - 1 - k]
    ensures !EndsWith(name, b)
  {
    assert name[|name| - 1 - k] == a[|a| - 1 - k];
  }

  // ---------------------------------------------------------------------------------
  // The copy specification (lines 210-236)

  /** One `from(tree) { ... }` block: the files of the tree, by their path relative to its
      root, and the filter the block configures. */
  datatype Source = Source(files: seq<RelPath>, filter: Filter)

  /** A runtime dependency as `configureJsWeb` finds it. An existing plain file is opened
      as an archive (`zipTree`); anything else is handed to `from` as it is, where a
      directory is copied as a tree and a missing file contributes nothing. */
  datatype Dependency =
    | Archive(entries: seq<RelPath>)
    | Directory(files: seq<RelPath>)
    | Missing

  function Tree(d: Dependency): seq<RelPath> {
    match d
    case Archive(entries) => entries
    case Directory(files) => files
    case Missing => []
  }

  /** What the copy step reads, each tree given by its files. */
  datatype Inputs = Inputs(
    dceOutput: seq<RelPath>,             // the destination directory of `runDceJsKotlin`
    mainOutputs: seq<RelPath>,           // all outputs of the main JS compilation
    npmModules: seq<RelPath>,            // build/npm/node_modules
    dependencies: seq<Dependency>,       // runtime dependency files of the test compilation
    jsResources: seq<seq<RelPath>>,      // resources of each source set of the js target's main compilation
    metadataResources: seq<seq<RelPath>> // the same for the metadata target
  )

  /** The two blocks of one dependency: everything the profile lets through, then its
      minified scripts. */
  function DependencyBlocks(d: Dependency, minimized: bool): seq<Source> {
    [Source(Tree(d), WebFilter(minimized)), Source(Tree(d), MinJsOnly)]
  }

  function DependencySources(deps: seq<Dependency>, minimized: bool): seq<Source>
    decreases |deps|
  {
    if deps == [] then []
    else DependencySources(deps[..|deps| - 1], minimized) + DependencyBlocks(deps[|deps| - 1], minimized)
  }

  function ResourceSources(sets: seq<seq<RelPath>>, minimized: bool): seq<Source>
    decreases |sets|
  {
    if sets == [] then []
    else ResourceSources(sets[..|sets| - 1], minimized) + [Source(sets[|sets| - 1], WebFilter(minimized))]
  }

  /** The blocks before the dependencies: the dead-code-eliminated scripts (minimized
      bundle only), the main outputs and the npm modules. */
  function LeadingSources(minimized: bool, inputs: Inputs): seq<Source> {
    (if minimized then [Source(inputs.dceOutput, DceFilter)] else []) +
    [Source(inputs.mainOutputs, WebFilter(minimized)), Source(inputs.npmModules, WebFilter(minimized))]
  }

  /** The `copy { ... }` specification, block by block in the order of the `from` calls. */
  function CopySpec(minimized: bool, inputs: Inputs): seq<Source> {
    LeadingSources(minimized, inputs) + DependencySources(inputs.dependencies, minimized) +
    ResourceSources(inputs.jsResources + inputs.metadataResources, minimized)
  }

  /** Builds the specification with the loops of lines 219-234. */
  method BuildCopySpec(minimized: bool, inputs: Inputs) returns (spec: seq<Source>)
    ensures spec == CopySpec(minimized, inputs)
  {
    spec := [];
    if minimized {
      spec := spec + [Source(inputs.dceOutput, DceFilter)];
    }
    spec := spec + [Source(inputs.mainOutputs, WebFilter(minimized))];
    spec := spec + [Source(inputs.npmModules, WebFilter(minimized))];
    assert spec == LeadingSources(minimized, inputs);
    spec := AddDependencies(spec, inputs.dependencies, minimized);
    ghost var withDeps := spec;
    spec := AddResources(spec, [inputs.jsResources, inputs.metadataResources], minimized);
    assert spec == withDeps + ResourceSources(inputs.jsResources + inputs.metadataResources, minimized) by {
      FlattenPair(inputs.jsResources, inputs.metadataResources);
    }
  }

  /** The loop of lines 219-227: two blocks per dependency. */
  method AddDependencies(spec0: seq<Source>, deps: seq<Dependency>, minimized: bool) returns (spec: seq<Source>)
    ensures spec == spec0 + DependencySources(deps, minimized)
  {
    spec := spec0;
    for i := 0 to |deps|
      invariant spec == spec0 + DependencySources(deps[..i], minimized)
    {
      // an existing plain file is opened as an archive; anything else is handed over as it is
      var tree: seq<RelPath>;
      match deps[i] {
        case Archive(entries) =>
          tree := entries;
        case _ =>
          tree := Tree(deps[i]);
      }
      assert tree == Tree(deps[i]);
      ghost var before := spec;
      spec := spec + [Source(tree, WebFilter(minimized))];
      spec := spec + [Source(tree, MinJsOnly)];
      assert spec == before + DependencyBlocks(deps[i], minimized);
      assert spec == spec0 + DependencySources(deps[..i + 1], minimized) by {
        DependencySourcesSnoc(deps, i, minimized);
      }
    }
    assert deps[..|deps|] == deps;
  }

  /** The loops of lines 229-234: one block per source set of each target. */
  method AddResources(spec0: seq<Source>, targets: seq<seq<seq<RelPath>>>, minimized: bool) returns (spec: seq<Source>)
    ensures spec == spec0 + ResourceSources(Flatten(targets), minimized)
  {
    spec := spec0;
    var done: seq<seq<RelPath>> := [];
    for t := 0 to |targets|
      invariant done == Flatten(targets[..t])
      invariant spec == spec0 + ResourceSources(done, minimized)
    {
      var sets := targets[t];
      assert done + sets[..0] == done;
      for j := 0 to |sets|
        invariant spec == spec0 + ResourceSources(done + sets[..j], minimized)
      {
        assert spec + [Source(sets[j], WebFilter(minimized))] ==
               spec0 + ResourceSources(done + sets[..j + 1], minimized) by {
          ResourceSourcesSnoc(done, sets, j, minimized);
        }
        spec := spec + [Source(sets[j], WebFilter(minimized))];
      }
      assert spec == spec0 + ResourceSources(done + sets, minimized) by {
        assert sets[..|sets|] == sets;
      }
      assert Flatten(targets[..t + 1]) == done + sets by {
        FlattenSnoc(targets, t);
      }
      done := done + sets;
    }
    assert targets[..|targets|] == targets;
  }

  function Flatten(xss: seq<seq<seq<RelPath>>>): seq<seq<RelPath>>
    decreases |xss|
  {
    if xss == [] then [] else Flatten(xss[..|xss| - 1]) + xss[|xss| - 1]
  }

  lemma DependencySourcesSnoc(deps: seq<Dependency>, i: nat, minimized: bool)
    requires i < |deps|
    ensures DependencySources(deps[..i + 1], minimized) ==
            DependencySources(deps[..i], minimized) + DependencyBlocks(deps[i], minimized)
  {
    assert deps[..i + 1][..i] == deps[..i];
  }

  lemma ResourceSourcesSnoc(done: seq<seq<RelPath>>, sets: seq<seq<RelPath>>, j: nat, minimized: bool)
    requires j < |sets|
    ensures ResourceSources(done + sets[..j + 1], minimized) ==
            ResourceSources(done + sets[..j], minimized) + [Source(sets[j], WebFilter(minimized))]
  {
    var xs := done + sets[..j + 1];
    assert xs[..|xs| - 1] == done + sets[..j];
    assert xs[|xs| - 1] == sets[j];
  }

  lemma FlattenSnoc(targets: seq<seq<seq<RelPath>>>, t: nat)
    requires t < |targets|
    ensures Flatten(targets[..t + 1]) == Flatten(targets[..t]) + targets[t]
  {
    assert targets[..t + 1][..t] == targets[..t];
  }

  lemma FlattenPair(a: seq<seq<RelPath>>, b: seq<seq<RelPath>>)
    ensures Flatten([a, b]) == a + b
  {
    var xs := [a, b];
    assert xs[..2] == xs && xs[..1] == [a] && [a][..0] == [];
    assert Flatten([a]) == a;
    assert Flatten(xs) == Flatten(xs[..1]) + b;
  }

  // ---------------------------------------------------------------------------------
  // The planned bundle

  /** The files the copy writes into the target directory: every file of every block that
      passes the block's filter. Only files are written (`includeEmptyDirs = false`), so a
      directory appears in the bundle only as the parent of a copied file. */
  function Plan(spec: seq<Source>): set<RelPath> {
    set k, p | 0 <= k < |spec| && p in spec[k].files && Passes(spec[k].filter, p) :: p
  }

  /** Where each block of the specification comes from, and which filter it has. */
  predicate FromInputs(s: Source, minimized: bool, inputs: Inputs) {
    (minimized && s == Source(inputs.dceOutput, DceFilter)) ||
    s.filter == WebFilter(minimized) ||
    (s.filter == MinJsOnly && exists d :: d in inputs.dependencies && s.files == Tree(d))
  }

  lemma DependencySourcesFrom(deps: seq<Dependency>, minimized: bool, k: nat)
    requires k < |DependencySources(deps, minimized)|
    ensures var s := DependencySources(deps, minimized)[k];
            s.filter == WebFilter(minimized) || (s.filter == MinJsOnly && exists d :: d in deps && s.files == Tree(d))
    decreases |deps|
  {
    var init := deps[..|deps| - 1];
    var last := deps[|deps| - 1];
    var s := DependencySources(deps, minimized);
    if k < |DependencySources(init, minimized)| {
      DependencySourcesFrom(init, minimized, k);
      assert s[k] == DependencySources(init, minimized)[k];
      assert forall d :: d in init ==> d in deps;
    } else {
      assert s[k] in DependencyBlocks(last, minimized);
    }
  }

  lemma ResourceSourcesFiltered(sets: seq<seq<RelPath>>, minimized: bool, k: nat)
    requires k < |ResourceSources(sets, minimized)|
    ensures ResourceSources(sets, minimized)[k].filter == WebFilter(minimized)
    decreases |sets|
  {
    var init := sets[..|sets| - 1];
    if k < |ResourceSources(init, minimized)| {
      ResourceSourcesFiltered(init, minimized, k);
    }
  }

  /** Every block of the specification is one of: the dead-code-eliminated scripts, a
      block under the profile's filter, or the minified scripts of a dependency. */
  lemma SpecFromInputs(minimized: bool, inputs: Inputs, k: nat)
    requires k < |CopySpec(minimized, inputs)|
    ensures FromInputs(CopySpec(minimized, inputs)[k], minimized, inputs)
  {
    var lead := LeadingSources(minimized, inputs);
    var deps := DependencySources(inputs.dependencies, minimized);
    var res := ResourceSources(inputs.jsResources + inputs.metadataResources, minimized);
    var spec := CopySpec(minimized, inputs);
    assert spec == lead + deps + res;
    if k < |lead| {
      assert spec[k] == lead[k];
    } else if k < |lead| + |deps| {
      assert spec[k] == deps[k - |lead|];
      DependencySourcesFrom(inputs.dependencies, minimized, k - |lead|);
    } else {
      assert spec[k] == res[k - |lead| - |deps|];
      ResourceSourcesFiltered(inputs.jsResources + inputs.metadataResources, minimized, k - |lead| - |deps|);
    }
  }

  /** No bundle, normal or minimized, holds compiler metadata, manifests or source maps. */
  lemma NoMetadataInBundle(minimized: bool, inputs: Inputs, path: RelPath)
    requires path in Plan(CopySpec(minimized, inputs))
    ensures !MatchesAny(ExcludesNormal, path)
    ensures path != [] ==> !NormallyExcludedName(FileName(path))
  {
    var spec := CopySpec(minimized, inputs);
    var k :| 0 <= k < |spec| && path in spec[k].files && Passes(spec[k].filter, path);
    SpecFromInputs(minimized, inputs, k);
    ExcludesNormalNames(path);
    ExcludesAllNames(path);
    if spec[k].filter == MinJsOnly {
      assert MatchesAny([MinJs], path);
      assert GlobMatches(MinJs, path);
      MinJsNames(path);
      MinifiedIsNotMetadata(FileName(path));
    }
  }

  /** The minimized bundle holds no script other than the dead-code-eliminated ones and
      the minified scripts of the dependencies. */
  lemma MinimizedScripts(inputs: Inputs, path: RelPath)
    requires path in Plan(CopySpec(true, inputs))
    requires path != [] && EndsWith(FileName(path), ".js")
    ensures path in inputs.dceOutput ||
            (EndsWith(FileName(path), ".min.js") && exists d :: d in inputs.dependencies && path in Tree(d))
  {
    var spec := CopySpec(true, inputs);
    var k :| 0 <= k < |spec| && path in spec[k].files && Passes(spec[k].filter, path);
    SpecFromInputs(true, inputs, k);
    ExcludesAllNames(path);
    if spec[k].filter == MinJsOnly {
      assert MatchesAny([MinJs], path);
      assert GlobMatches(MinJs, path);
      MinJsNames(path);
    }
  }

  lemma DependencyBlocksIn(deps: seq<Dependency>, minimized: bool, i: nat)
    requires i < |deps|
    ensures Source(Tree(deps[i]), MinJsOnly) in DependencySources(deps, minimized)
    ensures Source(Tree(deps[i]), WebFilter(minimized)) in DependencySources(deps, minimized)
    decreases |deps|
  {
    var init := deps[..|deps| - 1];
    if i < |init| {
      DependencyBlocksIn(init, minimized, i);
      assert init[i] == deps[i];
    }
  }

  lemma InPlan(spec: seq<Source>, s: Source, path: RelPath)
    requires s in spec && path in s.files && Passes(s.filter, path)
    ensures path in Plan(spec)
  {
    var k :| 0 <= k < |spec| && spec[k] == s;
  }

  /** Both bundles keep every minified script of every dependency, archive or directory. */
  lemma DependencyMinJsKept(minimized: bool, inputs: Inputs, i: nat, path: RelPath)
    requires i < |inputs.dependencies| && path in Tree(inputs.dependencies[i])
    requires path != [] && EndsWith(FileName(path), ".min.js")
    ensures path in Plan(CopySpec(minimized, inputs))
  {
    var s := Source(Tree(inputs.dependencies[i]), MinJsOnly);
    DependencyBlocksIn(inputs.dependencies, minimized, i);
    MinJsNames(path);
    assert MatchesAny(s.filter.includes, path) by { assert s.filter.includes[0] == MinJs; }
    assert s in CopySpec(minimized, inputs);
    InPlan(CopySpec(minimized, inputs), s, path);
  }

  /** Every main output the profile does not exclude is copied. */
  lemma MainOutputKept(minimized: bool, inputs: Inputs, path: RelPath)
    requires path in inputs.mainOutputs && path != []
    requires !NormallyExcludedName(FileName(path))
    requires minimized ==> !EndsWith(FileName(path), ".js")
    ensures path in Plan(CopySpec(minimized, inputs))
  {
    var s := Source(inputs.mainOutputs, WebFilter(minimized));
    ExcludesNormalNames(path);
    ExcludesAllNames(path);
    assert s in LeadingSources(minimized, inputs);
    assert s in CopySpec(minimized, inputs);
    InPlan(CopySpec(minimized, inputs), s, path);
  }

  // A compilation that produced a script, its source map and its metadata file
  // `app.kotlin_metadata`.
  const ExampleOutputs: seq<RelPath> := [["app.js"], ["app.js.map"], ["app" + ".kotlin_metadata"]]

  /** The normal bundle of that compilation holds the script alone. */
  lemma NormalBundleExample()
    ensures Plan(CopySpec(false, Inputs([], ExampleOutputs, [], [], [], []))) ==
            {["app.js"]}
  {
    var inputs := Inputs([], ExampleOutputs, [], [], [], []);
    var spec := CopySpec(false, inputs);
    MainOutputKept(false, inputs, ["app.js"]);
    forall path | path in Plan(spec) ensures path == ["app.js"] {
      ExampleOnlyScript(inputs, path);
    }
  }

  lemma ExampleOnlyScript(inputs: Inputs, path: RelPath)
    requires inputs == Inputs([], ExampleOutputs, [], [], [], [])
    requires path in Plan(CopySpec(false, inputs))
    ensures path == ["app.js"]
  {
    var spec := CopySpec(false, inputs);
    assert spec == [Source(inputs.mainOutputs, WebFilter(false)), Source([], WebFilter(false))] by {
      assert DependencySources([], false) == [] && ResourceSources([], false) == [];
      assert inputs.jsResources + inputs.metadataResources == [];
    }
    assert path in inputs.mainOutputs by {
      var k :| 0 <= k < |spec| && path in spec[k].files && Passes(spec[k].filter, path);
      assert k == 0;
    }
    assert !NormallyExcludedName(FileName(path)) by {
      NoMetadataInBundle(false, inputs, path);
    }
    assert NormallyExcludedName(FileName(["app.js.map"])) by {
      assert EndsWith("app.js.map", ".map");
    }
    assert NormallyExcludedName(FileName(["app" + ".kotlin_metadata"])) by {
      EndsWithAppended("app", ".kotlin_metadata");
    }
  }

  // ---------------------------------------------------------------------------------
  // The files written after the copy (lines 239-277)

  const IndexTemplateName: string := "index.v2.template.html"
  const RequireTemplateName: string := "require.min.v2.template.js"

  /** Where a template comes from: a file of that name in the target directory, or the
      plugin's built-in resource of that name. */
  datatype Template = InTarget(text: string) | Builtin(name: string)

  /** The template choice of lines 241-249: a file in the target directory wins over the
      built-in resource. */
  function ResolveTemplate(target: map<RelPath, string>, name: string): (t: Template)
    ensures t.InTarget? <==> [name] in target
    ensures t.InTarget? ==> t.text == target[[name]]
    ensures t.Builtin? ==> t.name == name
  {
    if [name] in target then InTarget(target[[name]]) else Builtin(name)
  }

  /** What each generated file is made of. */
  datatype Generated =
    | PatchedRuntime(runtime: string, before: string, after: string)
        // kotlin.js: `runtime` after `applyPatchToKotlinRuntime(runtime, before, after)`
    | IndexPage(template: Template, output: string, title: string)
        // index.html: the template with OUTPUT and TITLE bound
    | RequireLoader(template: Template)
        // require.min.js: the template, verbatim
    | Icon(size: nat)
        // the application icon at size x size

  datatype Finish =
    | Written(files: map<string, Generated>)
    | RuntimeMissing      // reading target/kotlin.js fails
    | NoPatchDelimiter    // the patch resource cannot be destructured into two pieces

  /** `nameWithoutExtension`: the file name up to its last dot. */
  function NameWithoutExtension(name: string): (r: string)
    ensures StartsWith(name, r)
    ensures r == name <==> '.' !in name
    ensures r != name ==> name[|r|] == '.' && '.' !in name[|r| + 1..]
    decreases |name|
  {
    if name == [] then []
    else if name[|name| - 1] == '.' then name[..|name| - 1]
    else
      var r := NameWithoutExtension(name[..|name| - 1]);
      if r == name[..|name| - 1] then name
      else
        assert name[|r| + 1..] == name[..|name| - 1][|r| + 1..] + [name[|name| - 1]];
        r
  }

  /** The files written into the target directory `target` (path to text, after the
      copy), in the order of lines 268-277; the first failure stops the rest. The patch
      resource is split as `applyPatchesToKotlinRuntime` splits it. */
  function FinishBundle(target: map<RelPath, string>, patchResource: string, outputFile: string, title: string): (r: Finish)
    ensures r.RuntimeMissing? <==> ["kotlin.js"] !in target
    ensures r.NoPatchDelimiter? <==> ["kotlin.js"] in target && !Contains(patchResource, PatchEngine.Delimiter)
    ensures r.Written? ==>
              r.files.Keys == {"kotlin.js", "index.html", "require.min.js", "favicon.png", "appicon.png"} &&
              r.files["kotlin.js"].PatchedRuntime? && r.files["kotlin.js"].runtime == target[["kotlin.js"]] &&
              StartsWith(patchResource, r.files["kotlin.js"].before + PatchEngine.Delimiter + r.files["kotlin.js"].after) &&
              !Contains(r.files["kotlin.js"].before, PatchEngine.Delimiter) &&
              !Contains(r.files["kotlin.js"].after, PatchEngine.Delimiter) &&
              r.files["index.html"] == IndexPage(ResolveTemplate(target, IndexTemplateName), NameWithoutExtension(outputFile), title) &&
              r.files["require.min.js"] == RequireLoader(ResolveTemplate(target, RequireTemplateName)) &&
              r.files["favicon.png"] == Icon(16) && r.files["appicon.png"] == Icon(180)
  {
    var index := ResolveTemplate(target, IndexTemplateName);
    var loader := ResolveTemplate(target, RequireTemplateName);
    var pieces := Split(patchResource, PatchEngine.Delimiter);
    if ["kotlin.js"] !in target then RuntimeMissing
    else if |pieces| < 2 then
      assert IndexOf(patchResource, PatchEngine.Delimiter, 0).None?;
      NoPatchDelimiter
    else
      assert IndexOf(patchResource, PatchEngine.Delimiter, 0).Some?;
      SplitFirstTwo(patchResource, PatchEngine.Delimiter);
      Written(map[
        "kotlin.js" := PatchedRuntime(target[["kotlin.js"]], pieces[0], pieces[1]),
        "index.html" := IndexPage(index, NameWithoutExtension(outputFile), title),
        "require.min.js" := RequireLoader(loader),
        "favicon.png" := Icon(16),
        "appicon.png" := Icon(180)])
  }

  /** When the bundle is finished, its kotlin.js is the runtime patched with the patch
      resource's first two pieces. */
  lemma FinishBundleRuntime(target: map<RelPath, string>, patchResource: string, outputFile: string, title: string)
    requires ["kotlin.js"] in target && |Split(patchResource, PatchEngine.Delimiter)| >= 2
    ensures FinishBundle(target, patchResource, outputFile, title).Written?
    ensures FinishBundle(target, patchResource, outputFile, title).files["kotlin.js"] ==
            PatchedRuntime(target[["kotlin.js"]], Split(patchResource, PatchEngine.Delimiter)[0],
                           Split(patchResource, PatchEngine.Delimiter)[1])
  {
  }

  /** The kotlin.js that `FinishBundle` records is what `applyPatchesToKotlinRuntime`
      writes: the bundle is written exactly when the runtime is present and the patcher
      finds its delimiter, and then the recorded runtime and snippets patch to the
      patcher's result. */
  lemma FinishBundlePatchesRuntime(target: map<RelPath, string>, patchResource: string, outputFile: string, title: string)
    ensures FinishBundle(target, patchResource, outputFile, title).Written? <==>
            ["kotlin.js"] in target && PatchEngine.ApplyPatches(target[["kotlin.js"]], patchResource).Patched?
    ensures FinishBundle(target, patchResource, outputFile, title).Written? ==>
              var k := FinishBundle(target, patchResource, outputFile, title).files["kotlin.js"];
              PatchEngine.ApplyPatches(target[["kotlin.js"]], patchResource) ==
              PatchEngine.Patched(PatchEngine.ApplyPatch(k.runtime, k.before, k.after))
  {
    if ["kotlin.js"] in target && |Split(patchResource, PatchEngine.Delimiter)| >= 2 {
      FinishBundleRuntime(target, patchResource, outputFile, title);
      PatchEngine.ApplyPatchesFirstTwo(target[["kotlin.js"]], patchResource);
    }
  }

  /** A custom `require.min.js` template shipped as a resource never reaches the minimized
      bundle: its name ends with `.js` but not with `.min.js`. Unless an earlier build left
      one in the target directory (or dead-code elimination produced one), the built-in
      loader is written. */
  lemma MinimizedIgnoresCustomLoader(inputs: Inputs, target: map<RelPath, string>, patchResource: string, outputFile: string, title: string)
    requires target.Keys == Plan(CopySpec(true, inputs))
    requires [RequireTemplateName] !in inputs.dceOutput
    requires ["kotlin.js"] in target && Contains(patchResource, PatchEngine.Delimiter)
    ensures FinishBundle(target, patchResource, outputFile, title).files["require.min.js"] ==
            RequireLoader(Builtin(RequireTemplateName))
  {
    var path := [RequireTemplateName];
    var name := FileName(path);
    assert name == RequireTemplateName;
    assert EndsWith(name, ".js") by { assert name[|name| - 3..] == ".js"; }
    assert !EndsWith(name, ".min.js") by { assert name[|name| - 4] == 'e'; }
    if path in Plan(CopySpec(true, inputs)) {
      MinimizedScripts(inputs, path);
    }
  }

  /** A custom index template shipped as a js resource does reach both bundles, and the
      index page is rendered from it. */
  lemma ResourceIndexTemplateUsed(minimized: bool, inputs: Inputs, k: nat)
    requires k < |inputs.jsResources| && [IndexTemplateName] in inputs.jsResources[k]
    ensures [IndexTemplateName] in Plan(CopySpec(minimized, inputs))
  {
    var path := [IndexTemplateName];
    var sets := inputs.jsResources + inputs.metadataResources;
    assert sets[k] == inputs.jsResources[k];
    ResourceSourceIn(sets, minimized, k);
    var s := Source(sets[k], WebFilter(minimized));
    assert s in CopySpec(minimized, inputs);
    ExcludesNormalNames(path);
    ExcludesAllNames(path);
    var name := FileName(path);
    assert name[|name| - 1] == 'l';
    InPlan(CopySpec(minimized, inputs), s, path);
  }

  lemma ResourceSourceIn(sets: seq<seq<RelPath>>, minimized: bool, k: nat)
    requires k < |sets|
    ensures Source(sets[k], WebFilter(minimized)) in ResourceSources(sets, minimized)
    decreases |sets|
  {
    var init := sets[..|sets| - 1];
    if k < |init| {
      ResourceSourceIn(init, minimized, k);
      assert init[k] == sets[k];
    }
  }
}
