/** The development script: three watchers that rebuild pages, scripts and
    stylesheets into `./dist/`, and unlink handlers that remove the derived
    outputs. It keeps no dependency graph.

    The foreign tools are fields of a `DevTools` value; the files under
    `./dist/` are an abstract set of paths. */
module DevServer {
  import opened Paths
  import opened ImportRegex
  import opened InlineText

  const OutDir: Path := "./dist/"
  const JsOut: Path := "./dist/assets/js/"
  const CssOut: Path := "./dist/assets/css/"

  /** `buildJS` accepts one entry point or a list of them. */
  datatype EntryArg = Single(file: Path) | Many(files: seq<Path>)

  /** The `typeof files === "string"` step: one string becomes a one-element
      list, a list is passed on untouched. */
  function EntryPoints(arg: EntryArg): (entries: seq<Path>) {
    match arg
    case Single(f) => [f]
    case Many(fs) => fs
  }

  lemma EntryPointsShape(arg: EntryArg)
    ensures arg.Single? ==> |EntryPoints(arg)| == 1 && EntryPoints(arg)[0] == arg.file
    ensures arg.Many? ==> EntryPoints(arg) == arg.files
  {
  }

  /** One compiler run. */
  datatype DevBuild = Html(file: Path) | Js(entries: seq<Path>) | Scss(file: Path)

  datatype DevTools = DevTools(
    /** `fs.readFileSync(file, "utf-8")` */
    readFile: Path -> string,
    /** The evaluated output files of bundling the component `href`
        imported by the page `file`. */
    outputs: Path -> string -> seq<string>,
    /** html-minifier with the script's options. */
    minify: string -> string)

  /** Where `buildSCSS(file, out)` writes the CSS: `out + basename(file,
      ".scss") + ".css"`. */
  function ScssOutPath(file: Path, out: Path): Path {
    out + CssFileName(file)
  }

  /** What esbuild writes into `out` for one entry point: `[name].js` and
      its map. */
  function EntryOutputs(entry: Path, out: Path): set<Path> {
    {out + EsbuildFileName(entry), MapOf(out + EsbuildFileName(entry))}
  }

  /** What `buildJS` writes for a list of entry points. */
  function JsOutputsOf(entries: seq<Path>, out: Path): set<Path>
    decreases |entries|
  {
    if entries == [] then {} else EntryOutputs(entries[0], out) + JsOutputsOf(entries[1..], out)
  }

  /** The name the JS unlink handler removes. */
  function UnlinkJsName(file: Path): Path {
    JsOut + JsFileName(file)
  }

  /** The text `buildHTML` writes for the page `file`. */
  method RenderPage(tools: DevTools, file: Path) returns (page: string)
    ensures page == tools.minify(DevPage(tools.readFile(file), tools.outputs(file)))
  {
    var contents := tools.readFile(file);
    var newContents := DevBuildHTML(contents, tools.outputs(file));
    page := tools.minify(newContents);
  }

  class Server {
    var artifacts: set<Path>
    var log: seq<DevBuild>
    const tools: DevTools

    constructor(tools: DevTools)
      ensures artifacts == {} && log == []
    {
      this.tools := tools;
      artifacts := {};
      log := [];
    }

    /** `buildHTML(file, out)`: inlines the page's components, minifies it
        and writes `out + basename(file)`. */
    method BuildHTML(file: Path, out: Path) returns (page: string)
      modifies this
      ensures page == tools.minify(DevPage(tools.readFile(file), tools.outputs(file)))
      ensures artifacts == old(artifacts) + {out + Basename(file)}
      ensures log == old(log) + [Html(file)]
    {
      page := RenderPage(tools, file);
      artifacts := artifacts + {out + Basename(file)};
      log := log + [Html(file)];
    }

    /** `buildJS(files, out)`: bundles the entry points into `out`. */
    method BuildJS(files: EntryArg, out: Path)
      modifies this
      ensures artifacts == old(artifacts) + JsOutputsOf(EntryPoints(files), out)
      ensures log == old(log) + [Js(EntryPoints(files))]
    {
      var entries := EntryPoints(files);
      artifacts := artifacts + JsOutputsOf(entries, out);
      log := log + [Js(entries)];
    }

    /** `buildSCSS(file, out)`: compiles the stylesheet and writes the CSS
        and its map. */
    method BuildSCSS(file: Path, out: Path)
      modifies this
      ensures artifacts == old(artifacts) + {ScssOutPath(file, out), MapOf(ScssOutPath(file, out))}
      ensures log == old(log) + [Scss(file)]
    {
      var outPath := ScssOutPath(file, out);
      artifacts := artifacts + {outPath, MapOf(outPath)};
      log := log + [Scss(file)];
    }

    /** The HTML `add`/`change` handler. */
    method WatchHTML(file: Path) returns (page: string)
      modifies this
      ensures artifacts == old(artifacts) + {OutDir + Basename(file)}
      ensures log == old(log) + [Html(file)]
    {
      page := BuildHTML(file, OutDir);
    }

    /** The HTML `unlink` handler: removes `./dist/<basename>` if it
        exists. */
    method UnlinkHTML(file: Path)
      modifies this
      ensures artifacts == old(artifacts) - {OutDir + Basename(file)}
      ensures log == old(log)
    {
      var outName := OutDir + Basename(file);
      if outName in artifacts {
        artifacts := artifacts - {outName};
      }
    }

    /** The JS `add`/`change` handler: bundles the one file. */
    method WatchJS(file: Path)
      modifies this
      ensures artifacts == old(artifacts) + {JsOut + EsbuildFileName(file), MapOf(JsOut + EsbuildFileName(file))}
      ensures log == old(log) + [Js([file])]
    {
      BuildJS(Single(file), JsOut);
      JsOutputsOfOne(file, JsOut);
    }

    /** The JS `unlink` handler: removes `<basename minus .jsx>.js` and its
        map, each if it exists. */
    method UnlinkJS(file: Path)
      modifies this
      ensures artifacts == old(artifacts) - {UnlinkJsName(file), MapOf(UnlinkJsName(file))}
      ensures log == old(log)
    {
      var outName := UnlinkJsName(file);
      var mapName := MapOf(outName);
      if outName in artifacts {
        artifacts := artifacts - {outName};
      }
      if mapName in artifacts {
        artifacts := artifacts - {mapName};
      }
      RemoveTwo(old(artifacts), outName, mapName);
    }

    /** The SCSS `add`/`change` handler: a partial is ignored, any other
        stylesheet is compiled. */
    method WatchSCSS(file: Path)
      modifies this
      ensures IsPartial(file) ==> artifacts == old(artifacts) && log == old(log)
      ensures !IsPartial(file) ==>
        artifacts == old(artifacts) + {CssOut + CssFileName(file), MapOf(CssOut + CssFileName(file))}
        && log == old(log) + [Scss(file)]
    {
      if !StartsWith(Basename(file), "_") {
        BuildSCSS(file, CssOut);
      }
    }

    /** The SCSS `unlink` handler: removes the compiled `.css` if it exists;
        its `.map` is left behind. */
    method UnlinkSCSS(file: Path)
      modifies this
      ensures artifacts == old(artifacts) - {CssOut + CssFileName(file)}
      ensures log == old(log)
    {
      var outName := CssOut + CssFileName(file);
      if outName in artifacts {
        artifacts := artifacts - {outName};
      }
    }
  }

  // ---------------------------------------------------------------- lemmas

  /** Removing two names one after the other, each only if present. */
  lemma RemoveTwo(s: set<Path>, a: Path, b: Path)
    ensures var s1 := if a in s then s - {a} else s;
      (if b in s1 then s1 - {b} else s1) == s - {a, b}
  {
  }

  /** One entry point gives exactly its script and map. */
  lemma JsOutputsOfOne(file: Path, out: Path)
    ensures JsOutputsOf([file], out) == {out + EsbuildFileName(file), MapOf(out + EsbuildFileName(file))}
  {
    assert [file][1..] == [];
  }

  /** `buildJS` writes the outputs of its entry points and nothing else. */
  lemma {:induction false} JsOutputsOfExact(entries: seq<Path>, out: Path, p: Path)
    ensures p in JsOutputsOf(entries, out) <==> exists e | e in entries :: p in EntryOutputs(e, out)
    decreases |entries|
  {
    if entries != [] {
      JsOutputsOfExact(entries[1..], out, p);
      if p in EntryOutputs(entries[0], out) {
        assert entries[0] in entries;
      }
      if e :| e in entries && p in EntryOutputs(e, out) {
        if e != entries[0] {
          assert e in entries[1..];
        }
      }
    }
  }

  /** Removing a compiled stylesheet leaves its map: after the SCSS handlers
      compile and then unlink a non-partial, the `.css.map` still exists. */
  lemma ScssMapSurvivesUnlink(before: set<Path>, file: Path)
    requires !IsPartial(file)
    ensures var out := CssOut + CssFileName(file);
      var built := before + {out, MapOf(out)};
      MapOf(out) in built - {out} && out !in built - {out}
  {
    var out := CssOut + CssFileName(file);
    assert |MapOf(out)| == |out| + 4;
  }

  /** For a `.jsx` page script the unlink handler removes exactly what the
      build wrote. */
  lemma JsxUnlinkRemovesBuild(before: set<Path>, file: Path, stem: string)
    requires Basename(file) == stem + ".jsx" && stem != []
    ensures var built := before + JsOutputsOf([file], JsOut);
      built - {UnlinkJsName(file), MapOf(UnlinkJsName(file))} == before - {UnlinkJsName(file), MapOf(UnlinkJsName(file))}
  {
    JsxUnlinkNameMatchesBuild(file, stem);
    JsOutputsOfOne(file, JsOut);
  }

  /** For a `.js` script (the JS watcher also takes `*.js`) the unlink
      handler looks for `<name>.js.js` and the compiled `<name>.js` stays. */
  lemma JsUnlinkLeavesBuild(before: set<Path>, file: Path, stem: string)
    requires Basename(file) == stem + ".js" && stem != []
    ensures var built := before + JsOutputsOf([file], JsOut);
      JsOut + stem + ".js" in built - {UnlinkJsName(file), MapOf(UnlinkJsName(file))}
  {
    JsUnlinkNameMissesBuild(file, stem);
    JsOutputsOfOne(file, JsOut);
    var u := UnlinkJsName(file);
    var b := JsOut + stem + ".js";
    assert u == JsOut + (stem + ".js.js");
    assert b == JsOut + EsbuildFileName(file);
    assert b != u by { assert |u| == |b| + 3; }
    assert b != MapOf(u) by { assert |MapOf(u)| == |b| + 7; }
  }
}
