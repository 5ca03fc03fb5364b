/** The `watch` command as one session object: the two reverse-dependency
    dictionaries it mutates in place, the output files that exist under
    `dist`, and the builds performed so far.

    The foreign tools (esbuild, sass, the minifier, module evaluation) and the
    cwd-dependent path functions are fields of a `Toolchain` value. Output
    paths are relative to `dist`. */
module WatchSession {
  import opened Wrappers
  import opened Paths
  import opened ImportRegex
  import opened InlineText
  import opened DepGraph

  /** One compiler run, in the order the session performs them. */
  datatype Build = JS(file: Path) | CSS(file: Path) | HTML(file: Path)

  datatype Toolchain = Toolchain(
    /** `fs.readFileSync(file, "utf-8")` */
    readFile: Path -> string,
    /** Bundling and evaluating the component `href` imported by the page
        `file`: its `default` export, or `None` when the module was falsy. */
    evalImport: Path -> string -> Option<string>,
    /** html-minifier with the command's options. */
    minify: string -> string,
    /** `path.relative(process.cwd(), file)` */
    relative: Path -> Path,
    /** `path.resolve(file)` */
    resolve: Path -> Path,
    /** `metafile.inputs` of an esbuild bundle of an entry point. */
    metafile: Path -> Manifest,
    /** `stats.includedFiles` of a sass compilation. */
    includedFiles: Path -> seq<Path>)

  /** What `buildJS(file)` writes: `assets/js/[name].js` and its map. */
  function JsOutputs(file: Path): (outs: set<Path>)
    ensures "assets/js/" + EsbuildFileName(file) in outs
    ensures |outs| == 2
  {
    var out := "assets/js/" + EsbuildFileName(file);
    assert out != MapOf(out) by { assert |MapOf(out)| == |out| + 4; }
    {out, MapOf(out)}
  }

  /** What `buildCSS(file)` writes: `assets/css/<basename minus .scss>.css`
      and its map. */
  function CssOutputs(file: Path): (outs: set<Path>)
    ensures "assets/css/" + CssFileName(file) in outs
    ensures |outs| == 2
  {
    var out := "assets/css/" + CssFileName(file);
    assert out != MapOf(out) by { assert |MapOf(out)| == |out| + 4; }
    {out, MapOf(out)}
  }

  /** The text `buildHTML` writes for the page `file`. */
  method RenderPage(tools: Toolchain, file: Path) returns (page: string)
    ensures page == tools.minify(WatchPage(tools.readFile(file), tools.evalImport(file)))
  {
    var contents := tools.readFile(file);
    var newContents := WatchBuildHTML(contents, tools.evalImport(file));
    page := tools.minify(newContents);
  }

  class Session {
    var jsImports: Graph
    var cssImports: Graph
    var artifacts: set<Path>
    var log: seq<Build>
    const tools: Toolchain
    /** Witnesses that every esbuild manifest is acyclic and contains its
        entry point. */
    ghost const importRank: Path -> map<Path, nat>

    ghost predicate ToolsOk() {
      forall f :: f in tools.metafile(f) && Ranked(tools.metafile(f), importRank(f))
    }

    /** Every `JSImports` node was last recreated with one dependent. */
    ghost predicate JsValid()
      reads this
    {
      ToolsOk() && Singletons(jsImports)
    }

    /** Every `CSSImports` node was last recreated with one dependent, a
        stylesheet that was compiled, hence not a partial. */
    ghost predicate CssValid()
      reads this
    {
      Singletons(cssImports) && DependentsNotPartial(cssImports)
    }

    ghost predicate Valid()
      reads this
    {
      JsValid() && CssValid()
    }

    constructor(tools: Toolchain, ghost importRank: Path -> map<Path, nat>)
      requires forall f :: f in tools.metafile(f) && Ranked(tools.metafile(f), importRank(f))
      ensures Valid()
      ensures jsImports == map[] && cssImports == map[] && artifacts == {} && log == []
    {
      this.tools := tools;
      this.importRank := importRank;
      jsImports := map[];
      cssImports := map[];
      artifacts := {};
      log := [];
    }

    // ------------------------------------------------------------- HTML

    /** `buildHTML(file)`: inlines the page's components, minifies it and
        writes `dist/<basename>`. It records no dependency edges. */
    method BuildHTML(file: Path) returns (page: string)
      modifies this
      ensures page == tools.minify(WatchPage(tools.readFile(file), tools.evalImport(file)))
      ensures artifacts == old(artifacts) + {Basename(file)}
      ensures log == old(log) + [HTML(file)]
      ensures jsImports == old(jsImports) && cssImports == old(cssImports)
    {
      page := RenderPage(tools, file);
      artifacts := artifacts + {Basename(file)};
      log := log + [HTML(file)];
    }

    /** The HTML `unlink` handler: removes `dist/<basename>` if it exists. */
    method UnlinkHTML(file: Path)
      modifies this
      ensures artifacts == old(artifacts) - {Basename(file)}
      ensures Basename(file) in old(artifacts) ==> |artifacts| == |old(artifacts)| - 1
      ensures jsImports == old(jsImports) && cssImports == old(cssImports) && log == old(log)
    {
      var outName := Basename(file);
      if outName in artifacts {
        artifacts := artifacts - {outName};
      }
    }

    // --------------------------------------------------------------- JS

    /** `linkJSImportsRecursive(inputs, file)`: links the imports of `file` in
        order, each after its own imports, and returns the pre-order list of
        the files reached. */
    method LinkJSImportsRecursive(inputs: Manifest, file: Path, ghost rank: map<Path, nat>) returns (imports: seq<Path>)
      requires Ranked(inputs, rank) && file in inputs
      modifies this
      ensures imports == Walk(inputs, rank, file)
      ensures jsImports == Apply(old(jsImports), Writes(inputs, rank, file, 0))
      ensures cssImports == old(cssImports) && artifacts == old(artifacts) && log == old(log)
      decreases rank[file]
    {
      imports := [];
      var k := 0;
      while k < |inputs[file]|
        invariant k <= |inputs[file]|
        invariant imports + WalkFrom(inputs, rank, file, k) == Walk(inputs, rank, file)
        invariant Apply(jsImports, Writes(inputs, rank, file, k)) == Apply(old(jsImports), Writes(inputs, rank, file, 0))
        invariant cssImports == old(cssImports) && artifacts == old(artifacts) && log == old(log)
        decreases |inputs[file]| - k
      {
        var importPath := inputs[file][k];
        ghost var before, listed := jsImports, imports;
        imports := imports + [importPath];
        var nested := LinkJSImportsRecursive(inputs, importPath, rank);
        var importData := imports + nested;
        // The node is recreated: `JSImports[importPath] = {}` discards any
        // earlier dependents before `file` is recorded.
        jsImports := jsImports[importPath := {file}];
        imports := importData;
        LinkStep(before, inputs, rank, file, k);
        WalkStep(inputs, rank, file, k, listed);
        k := k + 1;
      }
    }

    /** `buildJS(file)`: bundles the entry point and links its imports. */
    method BuildJS(file: Path)
      requires JsValid()
      modifies this
      ensures JsValid()
      ensures jsImports == Apply(old(jsImports), Writes(tools.metafile(file), importRank(file), file, 0))
      ensures artifacts == old(artifacts) + JsOutputs(file)
      ensures log == old(log) + [JS(file)]
      ensures cssImports == old(cssImports)
    {
      var metafileInputs := tools.metafile(file);
      var _ := LinkJSImportsRecursive(metafileInputs, file, importRank(file));
      ApplySingletons(old(jsImports), Writes(metafileInputs, importRank(file), file, 0));
      artifacts := artifacts + JsOutputs(file);
      log := log + [JS(file)];
    }

    /** The state after `watchJS` built the scripts `targets`, starting from
        the given graph, outputs and log. */
    ghost predicate JsRebuilt(js0: Graph, art0: set<Path>, log0: seq<Build>, targets: set<Path>)
      requires ToolsOk()
      reads this
    {
      && (targets == {} ==> jsImports == js0 && artifacts == art0 && log == log0)
      && forall r | r in targets ::
           && jsImports == Apply(js0, Writes(tools.metafile(r), importRank(r), r, 0))
           && artifacts == art0 + JsOutputs(r)
           && log == log0 + [JS(r)]
    }

    /** `watchJS(file)`: a script under `js/scripts` is built; any other file
        passes the change on to the dependents recorded on its node; a file
        with no node is ignored. `er` witnesses that the export edges are
        acyclic, as `watchJS` keeps no visited set. */
    method WatchJS(file: Path, ghost er: map<Path, nat>)
      requires JsValid() && ExportRanked(jsImports, tools.relative, er)
      modifies this
      ensures JsValid()
      ensures |JSTargets(old(jsImports), tools.relative, er, file)| <= 1
      ensures JsRebuilt(old(jsImports), old(artifacts), old(log), JSTargets(old(jsImports), tools.relative, er, file))
      ensures cssImports == old(cssImports)
      decreases Height(er, JsKey(tools.relative, file)), 3
    {
      SingletonsBuildAtMostOne(jsImports, tools.relative, er, file);
      var fileName := JsKey(tools.relative, file);
      if IsScriptRoot(fileName) {
        BuildScript(fileName);
      } else if fileName in jsImports {
        PassOnJS(file, fileName, er);
      }
    }

    /** The script branch of `watchJS`: the file itself is built. */
    method BuildScript(fileName: Path)
      requires JsValid() && IsScriptRoot(fileName)
      modifies this
      ensures JsValid() && cssImports == old(cssImports)
      ensures JsRebuilt(old(jsImports), old(artifacts), old(log), {fileName})
    {
      BuildJS(fileName);
    }

    /** The other branch of `watchJS`: the change goes to the dependents
        recorded on the file's node. */
    method PassOnJS(file: Path, fileName: Path, ghost er: map<Path, nat>)
      requires JsValid() && ExportRanked(jsImports, tools.relative, er)
      requires fileName == JsKey(tools.relative, file) && !IsScriptRoot(fileName) && fileName in jsImports
      modifies this
      ensures JsValid() && cssImports == old(cssImports)
      ensures JsRebuilt(old(jsImports), old(artifacts), old(log), JSTargets(old(jsImports), tools.relative, er, file))
      decreases Height(er, fileName), 2
    {
      var exports := jsImports[fileName];
      if e :| e in exports {
        SingletonMember(exports, e);
        TargetsThroughNode(jsImports, tools.relative, er, file, e);
      } else {
        assert JSTargets(jsImports, tools.relative, er, file) == {};
      }
      WatchDependentsJS(exports, er, Height(er, fileName));
    }

    /** The loop `for (const exportFile in JSImports[fileName].exports)
        watchJS(exportFile)` over the export set read before the loop. A
        recreated node has one dependent, so the loop body runs at most once,
        on the graph as it was. */
    method WatchDependentsJS(exports: set<Path>, ghost er: map<Path, nat>, ghost h: nat)
      requires JsValid() && ExportRanked(jsImports, tools.relative, er) && |exports| <= 1
      requires forall e | e in exports :: Height(er, JsKey(tools.relative, e)) < h
      modifies this
      ensures JsValid() && cssImports == old(cssImports)
      ensures exports == {} ==> jsImports == old(jsImports) && artifacts == old(artifacts) && log == old(log)
      ensures forall e | e in exports ::
        JsRebuilt(old(jsImports), old(artifacts), old(log), JSTargets(old(jsImports), tools.relative, er, e))
      decreases h, 1
    {
      var remaining := exports;
      ghost var picked: Option<Path> := None;
      while remaining != {}
        invariant JsValid() && cssImports == old(cssImports)
        invariant picked.None? ==> remaining == exports && jsImports == old(jsImports)
                                   && artifacts == old(artifacts) && log == old(log)
        invariant picked.Some? ==> remaining == {} && exports == {picked.value}
        invariant picked.Some? ==>
          JsRebuilt(old(jsImports), old(artifacts), old(log), JSTargets(old(jsImports), tools.relative, er, picked.value))
        decreases |remaining|
      {
        var exportFile :| exportFile in remaining;
        SingletonMember(remaining, exportFile);
        WatchDependentJS(exportFile, er, h);
        remaining := remaining - {exportFile};
        picked := Some(exportFile);
      }
    }

    /** The body of that loop: `watchJS` on one dependent. */
    method WatchDependentJS(exportFile: Path, ghost er: map<Path, nat>, ghost h: nat)
      requires JsValid() && ExportRanked(jsImports, tools.relative, er)
      requires Height(er, JsKey(tools.relative, exportFile)) < h
      modifies this
      ensures JsValid() && cssImports == old(cssImports)
      ensures JsRebuilt(old(jsImports), old(artifacts), old(log), JSTargets(old(jsImports), tools.relative, er, exportFile))
      decreases h, 0
    {
      WatchJS(exportFile, er);
    }

    /** The JS `unlink` handler: removes `assets/js/<basename minus .jsx>.js`
        and its map, each if it exists. */
    method UnlinkJS(file: Path)
      modifies this
      ensures var outName := "assets/js/" + JsFileName(file);
        artifacts == old(artifacts) - {outName, MapOf(outName)}
      ensures jsImports == old(jsImports) && cssImports == old(cssImports) && log == old(log)
    {
      var outName := "assets/js/" + JsFileName(file);
      if outName in artifacts {
        artifacts := artifacts - {outName};
      }
      if MapOf(outName) in artifacts {
        artifacts := artifacts - {MapOf(outName)};
      }
    }

    // -------------------------------------------------------------- CSS

    /** `linkCSSImports(inputs, file)`: recreates the node of every included
        file with `file` as its one dependent. */
    method LinkCSSImports(inputs: seq<Path>, file: Path)
      modifies this
      ensures cssImports == Apply(old(cssImports), CssWrites(inputs, file))
      ensures jsImports == old(jsImports) && artifacts == old(artifacts) && log == old(log)
    {
      for i := 0 to |inputs|
        invariant cssImports == Apply(old(cssImports), CssWrites(inputs[..i], file))
        invariant jsImports == old(jsImports) && artifacts == old(artifacts) && log == old(log)
      {
        ghost var before := cssImports;
        cssImports := cssImports[inputs[i] := {file}];
        CssStep(old(cssImports), before, inputs, file, i);
      }
      assert inputs[..|inputs|] == inputs;
    }

    /** `buildCSS(file)`: compiles a top-level stylesheet, links the files it
        included and writes the CSS and its map. */
    method BuildCSS(file: Path)
      requires CssValid() && !IsPartial(file)
      modifies this
      ensures CssValid()
      ensures cssImports == Apply(old(cssImports), CssWrites(tools.includedFiles(file), file))
      ensures artifacts == old(artifacts) + CssOutputs(file)
      ensures log == old(log) + [CSS(file)]
      ensures jsImports == old(jsImports)
    {
      var outPath := "assets/css/" + CssFileName(file);
      LinkCSSImports(tools.includedFiles(file), file);
      ApplySingletons(old(cssImports), CssWrites(tools.includedFiles(file), file));
      LinkCSSKeepsNotPartial(old(cssImports), tools.includedFiles(file), file);
      artifacts := artifacts + {outPath, MapOf(outPath)};
      log := log + [CSS(file)];
    }

    /** The state after `watchCSS` compiled the stylesheets `targets`. */
    ghost predicate CssRebuilt(css0: Graph, art0: set<Path>, log0: seq<Build>, targets: set<Path>)
      reads this
    {
      && (targets == {} ==> cssImports == css0 && artifacts == art0 && log == log0)
      && forall r | r in targets ::
           && cssImports == Apply(css0, CssWrites(tools.includedFiles(r), r))
           && artifacts == art0 + CssOutputs(r)
           && log == log0 + [CSS(r)]
    }

    /** `watchCSS(file)`: a stylesheet whose basename does not start with `_`
        is compiled; a partial passes the change on to the dependents on its
        node. */
    method WatchCSS(file: Path)
      requires CssValid()
      modifies this
      ensures CssValid()
      ensures |CSSTargets(old(cssImports), tools.resolve, file)| <= 1
      ensures CssRebuilt(old(cssImports), old(artifacts), old(log), CSSTargets(old(cssImports), tools.resolve, file))
      ensures !IsPartial(file) ==> CssRebuilt(old(cssImports), old(artifacts), old(log), {file})
      ensures jsImports == old(jsImports)
      decreases if IsPartial(file) then 2 else 0, 0
    {
      var filePath := tools.resolve(file);
      if !IsPartial(file) {
        BuildCSS(file);
      } else if filePath in cssImports {
        WatchDependentsCSS(cssImports[filePath], filePath);
      }
    }

    /** The loop `for (const exportFile in CSSImports[filePath].exports)
        watchCSS(exportFile)` over the export set read before the loop. Each
        dependent is a compiled stylesheet, so `watchCSS` compiles it directly
        and the change travels one hop. */
    method WatchDependentsCSS(exports: set<Path>, ghost node: Path)
      requires CssValid() && |exports| <= 1 && node in cssImports && exports == cssImports[node]
      modifies this
      ensures CssValid() && jsImports == old(jsImports)
      ensures exports == {} ==> cssImports == old(cssImports) && artifacts == old(artifacts) && log == old(log)
      ensures forall e | e in exports :: CssRebuilt(old(cssImports), old(artifacts), old(log), {e})
      decreases 1, 1
    {
      var remaining := exports;
      ghost var picked: Option<Path> := None;
      while remaining != {}
        invariant CssValid() && jsImports == old(jsImports)
        invariant picked.None? ==> remaining == exports && cssImports == old(cssImports)
                                   && artifacts == old(artifacts) && log == old(log)
        invariant picked.Some? ==> remaining == {} && exports == {picked.value}
        invariant picked.Some? ==> CssRebuilt(old(cssImports), old(artifacts), old(log), {picked.value})
        decreases |remaining|
      {
        var exportFile :| exportFile in remaining;
        SingletonMember(remaining, exportFile);
        WatchDependentCSS(exportFile, node);
        remaining := remaining - {exportFile};
        picked := Some(exportFile);
      }
    }

    /** The body of that loop: `watchCSS` on a dependent, which is compiled
        directly because it is not a partial. */
    method WatchDependentCSS(exportFile: Path, ghost node: Path)
      requires CssValid() && node in cssImports && exportFile in cssImports[node]
      modifies this
      ensures CssValid() && jsImports == old(jsImports)
      ensures CssRebuilt(old(cssImports), old(artifacts), old(log), {exportFile})
      decreases 1, 0
    {
      assert !IsPartial(exportFile);
      WatchCSS(exportFile);
    }

    /** The CSS `unlink` handler: removes the compiled `.css` if it exists;
        its `.map` is left behind. */
    method UnlinkCSS(file: Path)
      modifies this
      ensures var outName := "assets/css/" + CssFileName(file);
        artifacts == old(artifacts) - {outName}
        && (MapOf(outName) in old(artifacts) ==> MapOf(outName) in artifacts)
      ensures jsImports == old(jsImports) && cssImports == old(cssImports) && log == old(log)
    {
      var outName := "assets/css/" + CssFileName(file);
      if outName in artifacts {
        artifacts := artifacts - {outName};
      }
    }
  }

  // ---------------------------------------------------------------- lemmas

  /** One iteration of the linking loop: the nested walk's writes, then the
      recreation of the import's node, are the next writes of the walk. */
  lemma LinkStep(g: Graph, m: Manifest, rank: map<Path, nat>, f: Path, k: nat)
    requires Ranked(m, rank) && f in m && k < |m[f]|
    ensures var x := m[f][k];
      Apply(Apply(g, Writes(m, rank, x, 0))[x := {f}], Writes(m, rank, f, k + 1))
      == Apply(g, Writes(m, rank, f, k))
  {
    var x := m[f][k];
    var inner := Writes(m, rank, x, 0);
    var rest := Writes(m, rank, f, k + 1);
    assert Writes(m, rank, f, k) == inner + ([Link(x, f)] + rest);
    ApplyAppend(g, inner, [Link(x, f)] + rest);
    assert ([Link(x, f)] + rest)[0] == Link(x, f) && ([Link(x, f)] + rest)[1..] == rest;
  }

  /** One iteration of the linking loop extends the returned list by the
      import and its own list. */
  lemma WalkStep(m: Manifest, rank: map<Path, nat>, f: Path, k: nat, listed: seq<Path>)
    requires Ranked(m, rank) && f in m && k < |m[f]|
    ensures var x := m[f][k];
      listed + [x] + Walk(m, rank, x) + WalkFrom(m, rank, f, k + 1) == listed + WalkFrom(m, rank, f, k)
  {
    var x := m[f][k];
    assert WalkFrom(m, rank, f, k) == [x] + Walk(m, rank, x) + WalkFrom(m, rank, f, k + 1);
  }

  /** One iteration of the CSS linking loop. */
  lemma CssStep(g0: Graph, g: Graph, inputs: seq<Path>, file: Path, i: nat)
    requires i < |inputs| && g == Apply(g0, CssWrites(inputs[..i], file))
    ensures g[inputs[i] := {file}] == Apply(g0, CssWrites(inputs[..i + 1], file))
  {
    assert CssWrites(inputs[..i + 1], file) == CssWrites(inputs[..i], file) + [Link(inputs[i], file)];
    ApplyAppend(g0, CssWrites(inputs[..i], file), [Link(inputs[i], file)]);
    assert [Link(inputs[i], file)][1..] == [];
  }
}
