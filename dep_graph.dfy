/** The two reverse-dependency dictionaries of the `watch` command and the
    rules that propagate a change through them.

    A node of `JSImports` or `CSSImports` is modelled by its export set: the
    files recorded as depending on the node's file. Linking never adds to an
    existing node: it recreates the node with exactly one dependent, so the
    graph changes by a sequence of writes `node := {dependent}`. */
module DepGraph {
  import opened Paths

  /** A reverse-dependency dictionary: node -> export set. */
  type Graph = map<Path, set<Path>>

  /** The `inputs` of an esbuild metafile: each file to its direct imports,
      in import order. */
  type Manifest = map<Path, seq<Path>>

  /** One write `Graph[node] = { exports: { dependent: true } }`. */
  datatype Link = Link(node: Path, dependent: Path)

  /** The graph after performing the writes `ws` in order. */
  function Apply(g: Graph, ws: seq<Link>): Graph
    decreases |ws|
  {
    if ws == [] then g else Apply(g[ws[0].node := {ws[0].dependent}], ws[1..])
  }

  /** Every node holds at most one dependent. */
  ghost predicate Singletons(g: Graph) {
    forall p | p in g :: |g[p]| <= 1
  }

  lemma SingletonMember(s: set<Path>, x: Path)
    requires |s| <= 1 && x in s
    ensures s == {x}
  {
    assert |s - {x}| == |s| - 1;
  }

  // ------------------------------------------------------------ manifests

  /** `rank` witnesses that the manifest is acyclic and closed: every import
      is itself a key of the manifest and ranks strictly below its importer.
      Without it `linkJSImportsRecursive` does not terminate. */
  ghost predicate Ranked(m: Manifest, rank: map<Path, nat>) {
    forall p | p in m ::
      p in rank && forall i | 0 <= i < |m[p]| :: m[p][i] in m && m[p][i] in rank && rank[m[p][i]] < rank[p]
  }

  /** What `linkJSImportsRecursive(inputs, f)` returns once it has handled the
      imports of `f` before position `k`: for each remaining direct import,
      the import itself and then its own list, in order. */
  function WalkFrom(m: Manifest, rank: map<Path, nat>, f: Path, k: nat): seq<Path>
    requires Ranked(m, rank) && f in m && k <= |m[f]|
    decreases rank[f], |m[f]| - k
  {
    if k == |m[f]| then []
    else
      var x := m[f][k];
      [x] + WalkFrom(m, rank, x, 0) + WalkFrom(m, rank, f, k + 1)
  }

  function Walk(m: Manifest, rank: map<Path, nat>, f: Path): seq<Path>
    requires Ranked(m, rank) && f in m
  {
    WalkFrom(m, rank, f, 0)
  }

  /** The writes of `linkJSImportsRecursive(inputs, f)` from position `k` on:
      each import's own writes come first (the recursive call), then the
      import's node is recreated with `f` as its one dependent. */
  function Writes(m: Manifest, rank: map<Path, nat>, f: Path, k: nat): (ws: seq<Link>)
    requires Ranked(m, rank) && f in m && k <= |m[f]|
    ensures forall i | 0 <= i < |ws| :: ws[i].dependent in m && ws[i].node in m[ws[i].dependent]
    ensures forall i | 0 <= i < |ws| :: ws[i].node in rank && rank[ws[i].node] < rank[f]
    decreases rank[f], |m[f]| - k
  {
    if k == |m[f]| then []
    else
      var x := m[f][k];
      var inner := Writes(m, rank, x, 0);
      var rest := Writes(m, rank, f, k + 1);
      var ws := inner + [Link(x, f)] + rest;
      assert forall i | |inner| < i < |ws| :: ws[i] == rest[i - |inner| - 1];
      ws
  }

  /** `f` reaches `p` through one or more import edges. */
  ghost predicate Reaches(m: Manifest, rank: map<Path, nat>, f: Path, p: Path)
    requires Ranked(m, rank) && f in m
    decreases rank[f]
  {
    exists i | 0 <= i < |m[f]| :: m[f][i] == p || Reaches(m, rank, m[f][i], p)
  }

  /** The list is the set of files reachable from `f`: each element is
      reachable, and every reachable file is listed. */
  lemma {:induction false} WalkIsReachable(m: Manifest, rank: map<Path, nat>, f: Path, k: nat, p: Path)
    requires Ranked(m, rank) && f in m && k <= |m[f]|
    ensures p in WalkFrom(m, rank, f, k) <==>
            exists i | k <= i < |m[f]| :: m[f][i] == p || Reaches(m, rank, m[f][i], p)
    decreases rank[f], |m[f]| - k
  {
    if k < |m[f]| {
      var x := m[f][k];
      WalkIsReachable(m, rank, x, 0, p);
      WalkIsReachable(m, rank, f, k + 1, p);
      if p in WalkFrom(m, rank, f, k) {
        if p != x && p !in WalkFrom(m, rank, x, 0) {
          assert p in WalkFrom(m, rank, f, k + 1);
        }
      }
      if exists i | k <= i < |m[f]| :: m[f][i] == p || Reaches(m, rank, m[f][i], p) {
        var i :| k <= i < |m[f]| && (m[f][i] == p || Reaches(m, rank, m[f][i], p));
        if i > k {
          assert p in WalkFrom(m, rank, f, k + 1);
        }
      }
    }
  }

  lemma WalkIsReachableSet(m: Manifest, rank: map<Path, nat>, f: Path, p: Path)
    requires Ranked(m, rank) && f in m
    ensures p in Walk(m, rank, f) <==> Reaches(m, rank, f, p)
  {
    WalkIsReachable(m, rank, f, 0, p);
  }

  /** The nodes the writes `ws` name. */
  function Nodes(ws: seq<Link>): set<Path> {
    set i | 0 <= i < |ws| :: ws[i].node
  }

  lemma NodesAppend(a: seq<Link>, b: seq<Link>)
    ensures Nodes(a + b) == Nodes(a) + Nodes(b)
  {
    var ab := a + b;
    forall p | p in Nodes(ab) ensures p in Nodes(a) + Nodes(b) {
      var i :| 0 <= i < |ab| && ab[i].node == p;
      if i >= |a| {
        assert b[i - |a|].node == p;
      }
    }
    forall p | p in Nodes(a) + Nodes(b) ensures p in Nodes(ab) {
      if p in Nodes(b) {
        var i :| 0 <= i < |b| && b[i].node == p;
        assert ab[|a| + i].node == p;
      } else {
        var i :| 0 <= i < |a| && a[i].node == p;
        assert ab[i].node == p;
      }
    }
  }

  /** The writes of a walk touch exactly the listed files. */
  lemma {:induction false} WritesCoverWalk(m: Manifest, rank: map<Path, nat>, f: Path, k: nat)
    requires Ranked(m, rank) && f in m && k <= |m[f]|
    ensures Nodes(Writes(m, rank, f, k)) == set p | p in WalkFrom(m, rank, f, k)
    decreases rank[f], |m[f]| - k
  {
    if k < |m[f]| {
      var x := m[f][k];
      var inner := Writes(m, rank, x, 0);
      var rest := Writes(m, rank, f, k + 1);
      var w1 := WalkFrom(m, rank, x, 0);
      var w2 := WalkFrom(m, rank, f, k + 1);
      assert WalkFrom(m, rank, f, k) == [x] + w1 + w2;
      assert Writes(m, rank, f, k) == inner + [Link(x, f)] + rest;
      WritesCoverWalk(m, rank, x, 0);
      WritesCoverWalk(m, rank, f, k + 1);
      NodesAppend(inner, [Link(x, f)]);
      NodesAppend(inner + [Link(x, f)], rest);
      assert [Link(x, f)][0].node == x;
      assert Nodes([Link(x, f)]) == {x};
      assert (set p | p in [x] + w1 + w2) == {x} + (set p | p in w1) + (set p | p in w2);
    }
  }

  /** A file is never relinked while its own imports are linked: every file
      listed ranks below it, so it is not in its own list. */
  lemma {:induction false} WalkBelow(m: Manifest, rank: map<Path, nat>, f: Path, k: nat)
    requires Ranked(m, rank) && f in m && k <= |m[f]|
    ensures forall p | p in WalkFrom(m, rank, f, k) :: p in rank && rank[p] < rank[f]
    ensures f !in WalkFrom(m, rank, f, k)
    decreases rank[f], |m[f]| - k
  {
    if k < |m[f]| {
      var x := m[f][k];
      WalkBelow(m, rank, x, 0);
      WalkBelow(m, rank, f, k + 1);
    }
  }

  // --------------------------------------------------------------- writes

  lemma {:induction false} ApplyAppend(g: Graph, a: seq<Link>, b: seq<Link>)
    ensures Apply(g, a + b) == Apply(Apply(g, a), b)
    decreases |a|
  {
    if a != [] {
      assert (a + b)[0] == a[0] && (a + b)[1..] == a[1..] + b;
      ApplyAppend(g[a[0].node := {a[0].dependent}], a[1..], b);
    } else {
      assert a + b == b;
    }
  }

  /** A node no write names keeps its presence and its export set. */
  lemma {:induction false} ApplyFrame(g: Graph, ws: seq<Link>, p: Path)
    requires forall i | 0 <= i < |ws| :: ws[i].node != p
    ensures p in Apply(g, ws) <==> p in g
    ensures p in g ==> Apply(g, ws)[p] == g[p]
    decreases |ws|
  {
    if ws != [] {
      ApplyFrame(g[ws[0].node := {ws[0].dependent}], ws[1..], p);
    }
  }

  /** The last write to a node decides its export set: it holds exactly the
      dependent of that write. */
  lemma {:induction false} ApplyLast(g: Graph, ws: seq<Link>, i: nat)
    requires i < |ws|
    requires forall j | i < j < |ws| :: ws[j].node != ws[i].node
    ensures ws[i].node in Apply(g, ws)
    ensures Apply(g, ws)[ws[i].node] == {ws[i].dependent}
    decreases |ws|
  {
    var g' := g[ws[0].node := {ws[0].dependent}];
    if i == 0 {
      ApplyFrame(g', ws[1..], ws[0].node);
    } else {
      ApplyLast(g', ws[1..], i - 1);
    }
  }

  /** Every named node ends up holding exactly one dependent. */
  lemma {:induction false} ApplyNamed(g: Graph, ws: seq<Link>, i: nat)
    requires i < |ws|
    ensures ws[i].node in Apply(g, ws)
    ensures exists j | i <= j < |ws| :: ws[j].node == ws[i].node && Apply(g, ws)[ws[i].node] == {ws[j].dependent}
    decreases |ws| - i
  {
    if j :| i < j < |ws| && ws[j].node == ws[i].node {
      ApplyNamed(g, ws, j);
    } else {
      ApplyLast(g, ws, i);
    }
  }

  /** Linking keeps every export set a singleton (or empty, for no node). */
  lemma {:induction false} ApplySingletons(g: Graph, ws: seq<Link>)
    requires Singletons(g)
    ensures Singletons(Apply(g, ws))
    decreases |ws|
  {
    if ws != [] {
      ApplySingletons(g[ws[0].node := {ws[0].dependent}], ws[1..]);
    }
  }

  // ------------------------------------------------------------ JS linking

  /** After `linkJSImportsRecursive(inputs, f)`: every listed file holds one
      dependent, a file that imports it directly and is `f` or itself
      listed; every other node is as it was. */
  lemma LinkJSResult(g: Graph, m: Manifest, rank: map<Path, nat>, f: Path)
    requires Ranked(m, rank) && f in m
    ensures var r := Apply(g, Writes(m, rank, f, 0));
      forall p | p in Walk(m, rank, f) ::
        p in r && exists q :: r[p] == {q} && q in m && p in m[q] && (q == f || q in Walk(m, rank, f))
    ensures var r := Apply(g, Writes(m, rank, f, 0));
      forall p | p !in Walk(m, rank, f) :: (p in r <==> p in g) && (p in g ==> r[p] == g[p])
  {
    var ws := Writes(m, rank, f, 0);
    var r := Apply(g, ws);
    forall p | p in Walk(m, rank, f)
      ensures p in r && exists q :: r[p] == {q} && q in m && p in m[q] && (q == f || q in Walk(m, rank, f))
    {
      WritesCoverWalk(m, rank, f, 0);
      assert p in Nodes(ws);
      var i :| 0 <= i < |ws| && ws[i].node == p;
      ApplyNamed(g, ws, i);
      var j :| i <= j < |ws| && ws[j].node == p && r[p] == {ws[j].dependent};
      var q := ws[j].dependent;
      WritesParents(m, rank, f, 0, j);
    }
    forall p | p !in Walk(m, rank, f) ensures (p in r <==> p in g) && (p in g ==> r[p] == g[p]) {
      WritesCoverWalk(m, rank, f, 0);
      assert p !in Nodes(ws);
      ApplyFrame(g, ws, p);
    }
  }

  /** Every dependent written in a walk from `f` is `f` or a listed file. */
  lemma {:induction false} WritesParents(m: Manifest, rank: map<Path, nat>, f: Path, k: nat, j: nat)
    requires Ranked(m, rank) && f in m && k <= |m[f]| && j < |Writes(m, rank, f, k)|
    ensures var q := Writes(m, rank, f, k)[j].dependent; q == f || q in WalkFrom(m, rank, f, k)
    decreases rank[f], |m[f]| - k
  {
    var x := m[f][k];
    var inner := Writes(m, rank, x, 0);
    var rest := Writes(m, rank, f, k + 1);
    assert Writes(m, rank, f, k) == inner + [Link(x, f)] + rest;
    if j < |inner| {
      WritesParents(m, rank, x, 0, j);
      assert Writes(m, rank, f, k)[j] == inner[j];
    } else if j > |inner| {
      WritesParents(m, rank, f, k + 1, j - |inner| - 1);
      assert Writes(m, rank, f, k)[j] == rest[j - |inner| - 1];
    }
  }

  // ----------------------------------------------------------- CSS linking

  /** The writes of `linkCSSImports(inputs, file)`: every included file is
      recreated with `file` as its one dependent. */
  function CssWrites(inputs: seq<Path>, file: Path): (ws: seq<Link>)
    ensures |ws| == |inputs|
    ensures forall i | 0 <= i < |inputs| :: ws[i] == Link(inputs[i], file)
  {
    seq(|inputs|, i requires 0 <= i < |inputs| => Link(inputs[i], file))
  }

  /** After `linkCSSImports(inputs, file)` every included file maps to exactly
      `{file}` and every other node is as it was. */
  lemma LinkCSSResult(g: Graph, inputs: seq<Path>, file: Path)
    ensures var r := Apply(g, CssWrites(inputs, file));
      forall x | x in inputs :: x in r && r[x] == {file}
    ensures var r := Apply(g, CssWrites(inputs, file));
      forall p | p !in inputs :: (p in r <==> p in g) && (p in g ==> r[p] == g[p])
  {
    var ws := CssWrites(inputs, file);
    forall x | x in inputs ensures x in Apply(g, ws) && Apply(g, ws)[x] == {file} {
      var i :| 0 <= i < |inputs| && inputs[i] == x;
      ApplyNamed(g, ws, i);
    }
    forall p | p !in inputs ensures (p in Apply(g, ws) <==> p in g) && (p in g ==> Apply(g, ws)[p] == g[p]) {
      ApplyFrame(g, ws, p);
    }
  }

  // ------------------------------------------------------- JS propagation

  /** `watchJS`'s name for a changed file: the cwd-relative path with every
      backslash turned into a slash. */
  function JsKey(relative: Path -> Path, file: Path): (n: Path)
    ensures '\\' !in n
  {
    ReplaceBackslashesClean(relative(file));
    ReplaceBackslashes(relative(file))
  }

  /** A script entry point, built directly rather than through the graph. */
  predicate IsScriptRoot(n: Path) {
    Contains(n, "js/scripts")
  }

  /** `er` witnesses that following export edges from a non-root node
      always ends: `watchJS` has no visited set. */
  ghost predicate ExportRanked(g: Graph, relative: Path -> Path, er: map<Path, nat>) {
    forall n | n in g && !IsScriptRoot(n) ::
      n in er && forall e | e in g[n] :: JsKey(relative, e) in er ==> er[JsKey(relative, e)] < er[n]
  }

  function Height(er: map<Path, nat>, n: Path): nat {
    if n in er then er[n] + 1 else 0
  }

  /** The scripts `watchJS(file)` builds when the graph is `g`. */
  function JSTargets(g: Graph, relative: Path -> Path, er: map<Path, nat>, file: Path): (rs: set<Path>)
    requires ExportRanked(g, relative, er)
    ensures forall r | r in rs :: IsScriptRoot(r) && '\\' !in r
    decreases Height(er, JsKey(relative, file))
  {
    var n := JsKey(relative, file);
    if IsScriptRoot(n) then {n}
    else if n in g then (set e, r | e in g[n] && r in JSTargets(g, relative, er, e) :: r)
    else {}
  }

  /** A chain of export edges `watchJS` follows from `c[0]` to a script. */
  ghost predicate ExportChain(g: Graph, relative: Path -> Path, c: seq<Path>) {
    && |c| >= 1
    && IsScriptRoot(JsKey(relative, c[|c| - 1]))
    && forall i | 0 <= i < |c| - 1 ::
         !IsScriptRoot(JsKey(relative, c[i])) && JsKey(relative, c[i]) in g && c[i + 1] in g[JsKey(relative, c[i])]
  }

  /** Every script built ends an export chain from the changed file. */
  lemma TargetsEndChains(g: Graph, relative: Path -> Path, er: map<Path, nat>, file: Path, r: Path)
    requires ExportRanked(g, relative, er) && r in JSTargets(g, relative, er, file)
    ensures exists c :: ExportChain(g, relative, c) && c[0] == file && JsKey(relative, c[|c| - 1]) == r
  {
    var c := TargetChain(g, relative, er, file, r);
  }

  /** The export chain that leads `watchJS` from `file` to the script `r`. */
  lemma {:induction false} TargetChain(g: Graph, relative: Path -> Path, er: map<Path, nat>, file: Path, r: Path)
      returns (c: seq<Path>)
    requires ExportRanked(g, relative, er) && r in JSTargets(g, relative, er, file)
    ensures ExportChain(g, relative, c) && c[0] == file && JsKey(relative, c[|c| - 1]) == r
    decreases Height(er, JsKey(relative, file))
  {
    var n := JsKey(relative, file);
    if IsScriptRoot(n) {
      assert JSTargets(g, relative, er, file) == {n};
      c := [file];
    } else {
      var e :| e in g[n] && r in JSTargets(g, relative, er, e);
      var tail := TargetChain(g, relative, er, e, r);
      c := ChainCons(g, relative, file, tail);
    }
  }

  /** One more export edge in front of a chain. */
  lemma ChainCons(g: Graph, relative: Path -> Path, file: Path, c: seq<Path>) returns (c': seq<Path>)
    requires ExportChain(g, relative, c)
    requires var n := JsKey(relative, file); !IsScriptRoot(n) && n in g && c[0] in g[n]
    ensures c' == [file] + c
    ensures ExportChain(g, relative, c') && c'[0] == file && c'[|c'| - 1] == c[|c| - 1]
  {
    c' := [file] + c;
    assert forall i | 1 <= i < |c'| :: c'[i] == c[i - 1];
  }

  /** The end of every export chain from the changed file is built. */
  lemma {:induction false} ChainEndsAreTargets(g: Graph, relative: Path -> Path, er: map<Path, nat>, c: seq<Path>)
    requires ExportRanked(g, relative, er) && ExportChain(g, relative, c)
    ensures JsKey(relative, c[|c| - 1]) in JSTargets(g, relative, er, c[0])
    decreases |c|
  {
    if |c| > 1 {
      var c' := c[1..];
      assert forall i | 0 <= i < |c'| :: c'[i] == c[i + 1];
      assert ExportChain(g, relative, c');
      ChainEndsAreTargets(g, relative, er, c');
    }
  }

  /** With singleton export sets, `watchJS` builds at most one script. */
  lemma {:induction false} SingletonsBuildAtMostOne(g: Graph, relative: Path -> Path, er: map<Path, nat>, file: Path)
    requires ExportRanked(g, relative, er) && Singletons(g)
    ensures |JSTargets(g, relative, er, file)| <= 1
    decreases Height(er, JsKey(relative, file))
  {
    var n := JsKey(relative, file);
    if !IsScriptRoot(n) && n in g {
      if e :| e in g[n] {
        SingletonMember(g[n], e);
        SingletonsBuildAtMostOne(g, relative, er, e);
        assert JSTargets(g, relative, er, file) == JSTargets(g, relative, er, e);
      } else {
        assert JSTargets(g, relative, er, file) == {};
      }
    }
  }

  /** One step of `watchJS` through a single-dependent node. */
  lemma TargetsThroughNode(g: Graph, relative: Path -> Path, er: map<Path, nat>, file: Path, e: Path)
    requires ExportRanked(g, relative, er)
    requires var n := JsKey(relative, file); !IsScriptRoot(n) && n in g && g[n] == {e}
    ensures JSTargets(g, relative, er, file) == JSTargets(g, relative, er, e)
  {
  }

  // ------------------------------------------------------ CSS propagation

  /** Dependents are stylesheets that were compiled, so none is a partial. */
  ghost predicate DependentsNotPartial(g: Graph) {
    forall p, e | p in g && e in g[p] :: !IsPartial(e)
  }

  /** Linking the files a compiled stylesheet included keeps every dependent
      a non-partial. */
  lemma LinkCSSKeepsNotPartial(g: Graph, inputs: seq<Path>, file: Path)
    requires DependentsNotPartial(g) && !IsPartial(file)
    ensures DependentsNotPartial(Apply(g, CssWrites(inputs, file)))
  {
    LinkCSSResult(g, inputs, file);
  }

  /** The stylesheets a change to `file` should compile: the file itself
      unless it is a partial, otherwise the dependents recorded on its node.
      `watchCSS` recurses on the dependents; because they are not partials
      the recursion stops after one hop and compiles exactly these. */
  function CSSTargets(g: Graph, resolve: Path -> Path, file: Path): (rs: set<Path>)
    requires DependentsNotPartial(g)
    ensures forall r | r in rs :: !IsPartial(r)
  {
    if !IsPartial(file) then {file}
    else if resolve(file) in g then g[resolve(file)]
    else {}
  }
}
