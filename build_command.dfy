/** The one-shot `build` command: component inlining on the parsed page tree
    (the `data-` dataset, the import path fix, the skip of modules without a
    `default`, the string-or-render choice), the filter that never compiles a
    partial stylesheet, and the names of the compiled stylesheets.

    The HTML parser, esbuild, module evaluation and the renderer are fields
    of an `Env` value. */
module BuildCommand {
  import opened Wrappers
  import opened Paths

  // ----------------------------------------------------------------- tree

  /** A node of the parsed page: an element with its attribute object and
      children, or text. */
  datatype Node = Element(tag: string, attrs: map<string, string>, children: seq<Node>) | Text(text: string)

  /** What a component factory returns: markup as a string, or a value that
      is rendered to a string first. */
  datatype ImportData<V> = Markup(html: string) | Value(value: V)

  /** A module's `default` export: falsy, a factory function, or a truthy
      value that is not a function, which throws a `TypeError` when called. */
  datatype Default<V> = Falsy | Factory(call: map<string, string> -> ImportData<V>) | NotCallable

  datatype Env<!V> = Env(
    /** `path.relative(process.cwd(), path.resolve(path.dirname(file), href))` */
    resolve: (Path, string) -> Path,
    /** Bundling and evaluating the script: its `default` export. */
    moduleDefault: Path -> Default<V>,
    /** `Proper.renderToString` */
    renderToString: V -> string,
    /** The nodes `replaceWith` builds from a string. */
    parse: string -> seq<Node>)

  /** The selector `link[rel="import"]`. */
  predicate IsImportLink(n: Node) {
    n.Element? && n.tag == "link" && "rel" in n.attrs && n.attrs["rel"] == "import"
  }

  // -------------------------------------------------------------- dataset

  /** The dataset of an element: one entry per attribute named `data-<k>`,
      under the key `k`. */
  function DatasetOf(attrs: map<string, string>): map<string, string> {
    map a | a in attrs && |a| >= 5 && a == "data-" + a[5..] :: a[5..] := attrs[a]
  }

  /** `d` holds one entry per `data-` attribute among `names`, with that
      attribute's value. */
  ghost predicate DataFrom(d: map<string, string>, attrs: map<string, string>, names: set<string>) {
    && (forall k :: k in d <==> "data-" + k in names)
    && (forall k | k in d :: "data-" + k in attrs && d[k] == attrs["data-" + k])
  }

  /** The `for…in` loop that fills `dataset`, visiting the attributes in any
      order. */
  method BuildDataset(attrs: map<string, string>) returns (dataset: map<string, string>)
    ensures dataset == DatasetOf(attrs)
  {
    dataset := map[];
    var seen: set<string> := {};
    var rest := attrs.Keys;
    while rest != {}
      invariant seen + rest == attrs.Keys && seen !! rest
      invariant DataFrom(dataset, attrs, seen)
      decreases rest
    {
      var attr :| attr in rest;
      if StartsWith(attr, "data-") {
        DataStep(dataset, attrs, seen, attr);
        dataset := dataset[attr[5..] := attrs[attr]];
      } else {
        OtherStep(dataset, attrs, seen, attr);
      }
      seen, rest := seen + {attr}, rest - {attr};
    }
    DatasetUnique(dataset, attrs);
  }

  /** A `data-` attribute adds its entry. */
  lemma DataStep(d: map<string, string>, attrs: map<string, string>, names: set<string>, a: string)
    requires DataFrom(d, attrs, names) && a in attrs && StartsWith(a, "data-")
    ensures DataFrom(d[a[5..] := attrs[a]], attrs, names + {a})
  {
    DataName(a);
    var d' := d[a[5..] := attrs[a]];
    forall k ensures k in d' <==> "data-" + k in names + {a} {
      DataPrefix(k);
    }
  }

  /** Any other attribute adds nothing. */
  lemma OtherStep(d: map<string, string>, attrs: map<string, string>, names: set<string>, a: string)
    requires DataFrom(d, attrs, names) && !StartsWith(a, "data-")
    ensures DataFrom(d, attrs, names + {a})
  {
    forall k ensures k in d <==> "data-" + k in names + {a} {
      DataPrefix(k);
    }
  }

  lemma DataPrefix(k: string)
    ensures StartsWith("data-" + k, "data-") && ("data-" + k)[5..] == k
  {
    assert ("data-" + k)[..5] == "data-";
  }

  /** The entries taken from every attribute are the dataset. */
  lemma DatasetUnique(d: map<string, string>, attrs: map<string, string>)
    requires DataFrom(d, attrs, attrs.Keys)
    ensures d == DatasetOf(attrs)
  {
    forall k ensures (k in d <==> k in DatasetOf(attrs)) && (k in d ==> d[k] == DatasetOf(attrs)[k]) {
      DataKey(attrs, k);
    }
  }

  /** The name of a `data-` attribute is the prefix and its key. */
  lemma DataName(a: string)
    ensures StartsWith(a, "data-") <==> |a| >= 5 && a == "data-" + a[5..]
  {
    if StartsWith(a, "data-") {
      assert a == a[..5] + a[5..];
    }
  }

  /** `k` is a dataset key exactly when `data-k` is an attribute, and its
      value is that attribute's value: the dataset has one key per `data-`
      attribute and nothing from any other attribute. */
  lemma DataKey(attrs: map<string, string>, k: string)
    ensures k in DatasetOf(attrs) <==> "data-" + k in attrs
    ensures k in DatasetOf(attrs) ==> DatasetOf(attrs)[k] == attrs["data-" + k]
  {
    var a := "data-" + k;
    assert a[5..] == k;
    if k in DatasetOf(attrs) {
      var b :| b in attrs && |b| >= 5 && b == "data-" + b[5..] && b[5..] == k;
      assert b == a;
    }
  }

  /** Every `data-` attribute is in the dataset under its stripped name. */
  lemma DataAttribute(attrs: map<string, string>, a: string)
    requires a in attrs && StartsWith(a, "data-")
    ensures a[5..] in DatasetOf(attrs) && DatasetOf(attrs)[a[5..]] == attrs[a]
  {
    DataName(a);
    DataKey(attrs, a[5..]);
  }

  // --------------------------------------------------------------- inline

  /** The entry point handed to esbuild: the resolved href with every `\`
      turned into `/`. */
  function ScriptPath<V>(env: Env<V>, file: Path, href: string): Path {
    ReplaceBackslashes(env.resolve(file, href))
  }

  lemma ScriptPathClean<V>(env: Env<V>, file: Path, href: string)
    ensures '\\' !in ScriptPath(env, file, href)
  {
    ReplaceBackslashesClean(env.resolve(file, href));
  }

  /** The text an import link is replaced by, or `None` when the module has
      no `default` and the link stays. */
  function ImportHtml<V>(env: Env<V>, file: Path, n: Node): Option<string>
    requires LinkBuilds(env, file, n) && IsImportLink(n)
  {
    match env.moduleDefault(ScriptPath(env, file, n.attrs["href"]))
    case Falsy => None
    case Factory(factory) =>
      match factory(DatasetOf(n.attrs))
      case Markup(s) => Some(s)
      case Value(v) => Some(env.renderToString(v))
  }

  /** An import link that does not throw: it has an `href`, since resolving
      a missing one throws, and its module's `default` is not a truthy
      non-function, since calling one throws. */
  predicate LinkBuilds<V>(env: Env<V>, file: Path, n: Node) {
    IsImportLink(n) ==>
      "href" in n.attrs && !env.moduleDefault(ScriptPath(env, file, n.attrs["href"])).NotCallable?
  }

  /** No import link in the nodes or below throws; otherwise the page is
      not built. */
  predicate LinksBuild<V>(env: Env<V>, file: Path, nodes: seq<Node>)
    decreases nodes
  {
    nodes == [] || (NodeBuilds(env, file, nodes[0]) && LinksBuild(env, file, nodes[1..]))
  }

  predicate NodeBuilds<V>(env: Env<V>, file: Path, n: Node)
    decreases n
  {
    && LinkBuilds(env, file, n)
    && (n.Element? ==> LinksBuild(env, file, n.children))
  }

  /** The nodes with every import link replaced, as `forEach` leaves the
      tree. The nodes a replacement brings in are not visited, since the
      links were selected before the loop. */
  function InlineNodes<V>(env: Env<V>, file: Path, nodes: seq<Node>): seq<Node>
    requires LinksBuild(env, file, nodes)
    decreases nodes
  {
    if nodes == [] then [] else InlineNode(env, file, nodes[0]) + InlineNodes(env, file, nodes[1..])
  }

  function InlineNode<V>(env: Env<V>, file: Path, n: Node): seq<Node>
    requires NodeBuilds(env, file, n)
    decreases n
  {
    if IsImportLink(n) then
      match ImportHtml(env, file, n)
      case None => [n]
      case Some(html) => env.parse(html)
    else
      match n
      case Text(_) => [n]
      case Element(tag, attrs, children) => [Element(tag, attrs, InlineNodes(env, file, children))]
  }

  /** `buildHTML` up to serialisation and minification: the inlined tree, or
      `None` when an import link throws. */
  function BuildPage<V>(env: Env<V>, file: Path, root: seq<Node>): (r: Option<seq<Node>>)
    ensures r.Some? <==> LinksBuild(env, file, root)
  {
    if LinksBuild(env, file, root) then Some(InlineNodes(env, file, root)) else None
  }

  // --------------------------------------------------------------- lemmas

  /** A link whose module has no `default` is left in the tree. */
  lemma MissingDefaultKept<V>(env: Env<V>, file: Path, n: Node)
    requires IsImportLink(n) && "href" in n.attrs
    requires env.moduleDefault(ScriptPath(env, file, n.attrs["href"])).Falsy?
    ensures NodeBuilds(env, file, n) ==> InlineNode(env, file, n) == [n]
  {
  }

  /** Otherwise the factory is called with the element's dataset; a string
      result is inserted as it is and any other result is rendered first. */
  lemma ImportReplaced<V>(env: Env<V>, file: Path, n: Node, factory: map<string, string> -> ImportData<V>)
    requires IsImportLink(n) && NodeBuilds(env, file, n)
    requires env.moduleDefault(ScriptPath(env, file, n.attrs["href"])) == Factory(factory)
    ensures factory(DatasetOf(n.attrs)).Markup? ==>
      InlineNode(env, file, n) == env.parse(factory(DatasetOf(n.attrs)).html)
    ensures factory(DatasetOf(n.attrs)).Value? ==>
      InlineNode(env, file, n) == env.parse(env.renderToString(factory(DatasetOf(n.attrs)).value))
  {
  }

  /** A truthy `default` that is not a function stops the page: calling it
      throws, while a factory or a falsy `default` lets the link through. */
  lemma NotCallableThrows<V>(env: Env<V>, file: Path, n: Node)
    requires IsImportLink(n) && "href" in n.attrs && n.children == []
    ensures BuildPage(env, file, [n]).None? <==>
      env.moduleDefault(ScriptPath(env, file, n.attrs["href"])).NotCallable?
  {
    assert [n][1..] == [];
    assert LinksBuild(env, file, [n]) <==> NodeBuilds(env, file, n);
    assert NodeBuilds(env, file, n) <==> LinkBuilds(env, file, n);
  }

  /** Each node is inlined on its own: a skipped link does not stop the
      others. */
  lemma {:induction false} InlineAppend<V>(env: Env<V>, file: Path, a: seq<Node>, b: seq<Node>)
    requires LinksBuild(env, file, a) && LinksBuild(env, file, b)
    ensures LinksBuild(env, file, a + b)
    ensures InlineNodes(env, file, a + b) == InlineNodes(env, file, a) + InlineNodes(env, file, b)
    decreases a
  {
    if a != [] {
      assert (a + b)[0] == a[0] && (a + b)[1..] == a[1..] + b;
      InlineAppend(env, file, a[1..], b);
    } else {
      assert a + b == b;
    }
  }

  /** No import link in the nodes or below. */
  predicate NoImports(nodes: seq<Node>)
    decreases nodes
  {
    nodes == [] || (NoImport(nodes[0]) && NoImports(nodes[1..]))
  }

  predicate NoImport(n: Node)
    decreases n
  {
    !IsImportLink(n) && (n.Element? ==> NoImports(n.children))
  }

  /** A page without import links is left as it was. */
  lemma {:induction false} InlineNoImports<V>(env: Env<V>, file: Path, nodes: seq<Node>)
    requires NoImports(nodes)
    ensures LinksBuild(env, file, nodes) && InlineNodes(env, file, nodes) == nodes
    decreases nodes
  {
    if nodes != [] {
      InlineNoImport(env, file, nodes[0]);
      InlineNoImports(env, file, nodes[1..]);
      assert nodes == [nodes[0]] + nodes[1..];
    }
  }

  lemma {:induction false} InlineNoImport<V>(env: Env<V>, file: Path, n: Node)
    requires NoImport(n)
    ensures NodeBuilds(env, file, n) && InlineNode(env, file, n) == [n]
    decreases n
  {
    if n.Element? {
      InlineNoImports(env, file, n.children);
    }
  }

  /** Every module has a `default` and the inserted markup brings no import
      link of its own. */
  ghost predicate AllResolve<V>(env: Env<V>, file: Path) {
    && (forall p :: env.moduleDefault(p).Factory?)
    && (forall html :: NoImports(env.parse(html)))
  }

  /** Then no import link survives inlining. */
  lemma {:induction false} InlineRemovesImports<V>(env: Env<V>, file: Path, nodes: seq<Node>)
    requires AllResolve(env, file) && LinksBuild(env, file, nodes)
    ensures NoImports(InlineNodes(env, file, nodes))
    decreases nodes
  {
    if nodes != [] {
      InlineRemovesImport(env, file, nodes[0]);
      InlineRemovesImports(env, file, nodes[1..]);
      NoImportsAppend(InlineNode(env, file, nodes[0]), InlineNodes(env, file, nodes[1..]));
    }
  }

  lemma {:induction false} InlineRemovesImport<V>(env: Env<V>, file: Path, n: Node)
    requires AllResolve(env, file) && NodeBuilds(env, file, n)
    ensures NoImports(InlineNode(env, file, n))
    decreases n
  {
    if IsImportLink(n) {
      var p := ScriptPath(env, file, n.attrs["href"]);
      assert env.moduleDefault(p).Factory?;
      var html := ImportHtml(env, file, n).value;
      assert NoImports(env.parse(html));
    } else if n.Element? {
      InlineRemovesImports(env, file, n.children);
      var e := Element(n.tag, n.attrs, InlineNodes(env, file, n.children));
      assert NoImport(e);
      assert NoImports([e][1..]);
    } else {
      assert NoImports([n][1..]);
    }
  }

  lemma {:induction false} NoImportsAppend(a: seq<Node>, b: seq<Node>)
    requires NoImports(a) && NoImports(b)
    ensures NoImports(a + b)
    decreases a
  {
    if a != [] {
      assert (a + b)[0] == a[0] && (a + b)[1..] == a[1..] + b;
      NoImportsAppend(a[1..], b);
    } else {
      assert a + b == b;
    }
  }

  // ---------------------------------------------------------- stylesheets

  /** `path.join(dir, name)` for a plain file name; the normalisation of
      `.`, `..` and repeated separators is not modelled. */
  function JoinPath(dir: Path, name: string): Path {
    if dir == [] then name
    else if dir[|dir| - 1] == '/' then dir + name
    else dir + "/" + name
  }

  /** Where `buildCSS(file)` writes: `<dist>/<outcss>/<basename minus
      .scss>.css`; the map goes to the same path plus `.map`. */
  function CssOutPath(dist: Path, outcss: Path, file: Path): Path {
    JoinPath(JoinPath(dist, outcss), CssFileName(file))
  }

  /** Joining a name without `/` makes it the basename. */
  lemma BasenameOfJoin(dir: Path, name: string)
    requires '/' !in name
    ensures Basename(JoinPath(dir, name)) == name
  {
    var p := JoinPath(dir, name);
    var d := LastIndexOf(p, '/');
    if dir == [] {
      assert d == -1;
    } else {
      var i := |p| - |name| - 1;
      assert p[i] == '/';
      assert d >= i;
      assert p[i + 1..] == name;
    }
  }

  /** The compiled stylesheet and its map are named after the source: for
      `<stem>.scss` they are `<stem>.css` and `<stem>.css.map`. */
  lemma CssOutPathNames(dist: Path, outcss: Path, file: Path, stem: string)
    requires Basename(file) == stem + ".scss" && stem != []
    ensures Basename(CssOutPath(dist, outcss, file)) == stem + ".css"
    ensures MapOf(CssOutPath(dist, outcss, file)) == CssOutPath(dist, outcss, file) + ".map"
    ensures EndsWith(MapOf(CssOutPath(dist, outcss, file)), stem + ".css.map")
  {
    CssFileNameIs(file, stem);
    JoinedNameMap(JoinPath(dist, outcss), CssFileName(file));
    assert CssFileName(file) + ".map" == stem + ".css.map";
  }

  /** A name joined to a directory is the basename, and the map path ends
      with the name and `.map`. */
  lemma JoinedNameMap(dir: Path, name: string)
    requires '/' !in name
    ensures Basename(JoinPath(dir, name)) == name
    ensures EndsWith(MapOf(JoinPath(dir, name)), name + ".map")
  {
    BasenameOfJoin(dir, name);
    BasenameIsSuffix(JoinPath(dir, name));
    MapKeepsSuffix(JoinPath(dir, name), name);
  }

  /** `<stem>.scss` gives the file name `<stem>.css`, which holds no `/`. */
  lemma CssFileNameIs(file: Path, stem: string)
    requires Basename(file) == stem + ".scss" && stem != []
    ensures CssFileName(file) == stem + ".css" && '/' !in CssFileName(file)
  {
    BasenameExtStrips(file, stem, ".scss");
    BasenameExtIsName(file, ".scss");
    var name := CssFileName(file);
    forall i | 0 <= i < |name| ensures name[i] != '/' {
      if i < |stem| {
        assert name[i] == BasenameExt(file, ".scss")[i];
      }
    }
  }

  lemma MapKeepsSuffix(out: Path, name: string)
    requires EndsWith(out, name)
    ensures EndsWith(MapOf(out), name + ".map")
  {
    var m := MapOf(out);
    assert m[|m| - |name + ".map"|..] == out[|out| - |name|..] + ".map";
  }

  /** The stylesheets the glob loop compiles: those whose basename does not
      start with `_`, in order. */
  function NonPartials(files: seq<Path>): (built: seq<Path>)
    decreases |files|
  {
    if files == [] then []
    else (if IsPartial(files[0]) then [] else [files[0]]) + NonPartials(files[1..])
  }

  /** The glob callback: `buildCSS` on every file that is not a partial.
      Returns the files compiled, in order. */
  method BuildStylesheets(files: seq<Path>) returns (built: seq<Path>)
    ensures built == NonPartials(files)
  {
    built := [];
    for i := 0 to |files|
      invariant built == NonPartials(files[..i])
    {
      NonPartialsSnoc(files[..i], files[i]);
      assert files[..i + 1] == files[..i] + [files[i]];
      if !IsPartial(files[i]) {
        built := built + [files[i]];
      }
    }
    assert files[..|files|] == files;
  }

  /** Compiling one more file extends the list by that file unless it is a
      partial. */
  lemma {:induction false} NonPartialsSnoc(files: seq<Path>, f: Path)
    ensures NonPartials(files + [f]) == NonPartials(files) + (if IsPartial(f) then [] else [f])
    decreases |files|
  {
    var last := if IsPartial(f) then [] else [f];
    if files == [] {
      assert [f][1..] == [];
      assert NonPartials([f]) == last + [];
    } else {
      var rest := files[1..];
      var head := if IsPartial(files[0]) then [] else [files[0]];
      assert files + [f] != [] && (files + [f])[0] == files[0] && (files + [f])[1..] == rest + [f];
      NonPartialsSnoc(rest, f);
      calc {
        NonPartials(files + [f]);
        head + NonPartials(rest + [f]);
        head + (NonPartials(rest) + last);
        (head + NonPartials(rest)) + last;
        NonPartials(files) + last;
      }
    }
  }

  /** Exactly the non-partial stylesheets are compiled. */
  lemma {:induction false} NonPartialsExact(files: seq<Path>, f: Path)
    ensures f in NonPartials(files) <==> f in files && !IsPartial(f)
    decreases |files|
  {
    if files != [] {
      NonPartialsExact(files[1..], f);
      assert files == [files[0]] + files[1..];
    }
  }
}
