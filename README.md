# properweb-cli in Dafny

A model of the build and watch logic of properweb-cli, a static-site
pipeline. It compiles HTML pages, JSX component scripts and SCSS stylesheets
into a `dist` tree, inlining components into the pages. The model covers:

- **The `watch` command** (`cli/commands/watch.js`). This is the class
  `WatchSession.Session`. Its mutable state is the two reverse-dependency
  dictionaries `JSImports` and `CSSImports`, the set of output files under
  `dist`, and the sequence of compiler runs performed. The methods are:
  - `buildHTML`, with its `exec` loop over the component-import pattern;
  - `linkJSImportsRecursive`, `buildJS` and `watchJS`, with their change
    propagation through recorded dependents;
  - `linkCSSImports`, `buildCSS` and `watchCSS`;
  - the three `unlink` handlers.
- **The component-import pattern** `/<link +rel="import" *href="(.+\.jsx)" *\/?>/g`
  (`ImportRegex`). It is a concrete matcher with greedy capture and global
  `exec`. Its lemmas show that `exec` finds the leftmost match, in order and
  without overlap. They also show that the first matched tag is the first
  occurrence of its text, so `String.replace` replaces the tag that was
  found.
- **The one-shot `build` command** (`cli/commands/build.js`, `BuildCommand`):
  - the `data-` dataset loop;
  - inlining of `link[rel="import"]` elements in the parsed tree;
  - the falsy-`default` skip and the throw on a truthy non-function `default`;
  - the string-or-render choice;
  - the partial filter of the stylesheet glob;
  - the stylesheet output names.
- **The development script** `dev.js` (`DevServer.Server`): its builders and
  its watch and unlink handlers.
- **The two miniature renderers:**
  - `jsx-sub.js` (`JsxSub`): `render`, with fragments and `on…` listeners, and
    `renderToString`;
  - `didact.js` (`Didact`): `render`.

  Both share `createElement` and `createTextElement`, which are modelled once
  in `Vdom`.

The foreign tools are fields of a record value passed to the model: esbuild,
sass, html-minifier, jsdom, the HTML parser, module evaluation, `outerHTML`,
`fs.readFileSync` and the cwd-dependent `path.resolve` and `path.relative`.
Output files are a set of paths. A DOM node is a value, and a renderer returns
the container with the new node appended. This is exact because a node is
appended only after all its children have been rendered into it.

One might expect linking to add a dependent to an existing node. The code
instead recreates the node (`JSImports[importPath] = {}`,
`CSSImports[importPath] = {}`) before recording the one dependent. So a
partial included by two stylesheets rebuilds only the one compiled last, and
a script imported by two entry points rebuilds only the one bundled last. The model follows the code. It
proves that every node holds at most one dependent
(`DepGraph.ApplySingletons`) and that a change builds at most one script or
stylesheet (`WatchSession.Session.WatchJS`, `WatchSession.Session.WatchCSS`).

## Model

| member | source | states |
|---|---|---|
| Paths.Basename | cli/commands/watch.js:93 | `path.basename` yields a name that holds no `/` |
| Paths.BasenameIsSuffix | cli/commands/watch.js:93 | the basename ends the path, either being the whole path or following a `/` |
| Paths.ReplaceBackslashes | cli/commands/watch.js:178 | the replacement keeps the length, turns every `\` into `/` and keeps every other character in place |
| Paths.ReplaceBackslashesClean | cli/commands/build.js:46 | the script path handed to esbuild holds no backslash; a path without one is unchanged; the fix is idempotent |
| Paths.BasenameExtStrips | cli/commands/watch.js:226 | `basename(file, ".scss")` of `<stem>.scss` (non-empty stem) is `<stem>` |
| Paths.BasenameExtKeeps | cli/commands/watch.js:198 | a basename that does not end in the extension is returned whole |
| Paths.BasenameExtIsName | cli/commands/watch.js:226 | the derived output name never holds a `/` |
| Paths.JsxUnlinkNameMatchesBuild | cli/commands/watch.js:196-207 | for a `.jsx` source the unlink handler derives exactly the name esbuild wrote |
| Paths.JsUnlinkNameMissesBuild | cli/commands/watch.js:198 | for a `<stem>.js` source the handler derives `<stem>.js.js`, while esbuild wrote `<stem>.js`: the two differ |
| Text.FindFrom | cli/commands/watch.js:74 | the position found is an occurrence with no occurrence before it; `None` only when there is no occurrence at all |
| Text.ReplaceFirst | cli/commands/watch.js:74 | `replace` with a string pattern leaves text without the pattern unchanged and otherwise changes the length by `|rep| - |pat|` |
| Text.ReplaceAtFirst | cli/commands/watch.js:74 | when the pattern first occurs at `i`, exactly that occurrence gives way to the replacement |
| ImportRegex.SkipSpaces | cli/commands/watch.js:53 | ` *` ends within the text, at or after where it starts |
| ImportRegex.SkipSpacesStops | cli/commands/watch.js:53 | ` *` consumes only spaces and stops at a non-space or at the end |
| ImportRegex.HeadAt | cli/commands/watch.js:53 | `<link +rel="import" *href="` takes at least 24 characters and the capture starts inside the text |
| ImportRegex.TailAt | cli/commands/watch.js:53 | `" *\/?>` takes at least two characters inside the text |
| ImportRegex.LineEnd | cli/commands/watch.js:53 | the line of `.` ends within the text, at or after the capture start |
| ImportRegex.LineEndStops | cli/commands/watch.js:53 | the line holds no line terminator and ends at one or at the end of the text |
| ImportRegex.GreedyEnd | cli/commands/watch.js:53 | a backtracking result leaves room for `.+\.jsx` and the rest of the pattern matches after it |
| ImportRegex.GreedyEndLargest | cli/commands/watch.js:53 | on one line the backtracking search returns the largest capture end after which the pattern completes, or none exists |
| ImportRegex.MatchAt | cli/commands/watch.js:53 | a match found at `i` starts at `i` and ends after it, inside the text |
| ImportRegex.MatchAtIsMatch | cli/commands/watch.js:53 | what is found at a position is a match of the whole pattern with the longest (greedy) capture |
| ImportRegex.Exec | cli/commands/watch.js:56 | `exec` from `lastIndex` returns a non-empty match at or after `lastIndex` |
| ImportRegex.ExecFindsMatch | cli/commands/watch.js:56 | the result of `exec` is the match at its own start |
| ImportRegex.ExecIsLeftmost | cli/commands/watch.js:56 | no match starts between `lastIndex` and the match `exec` returns |
| ImportRegex.ExecNoneNoMatch | cli/commands/watch.js:56 | `exec` returns `null` only when no position from `lastIndex` on matches |
| ImportRegex.AllMatchesOrdered | cli/commands/watch.js:56 | the successive `exec` results lie in the text in order and without overlap |
| ImportRegex.AllMatchesSound | cli/commands/watch.js:56 | every result of the `exec` loop is the match at its start |
| ImportRegex.AllMatchesAreMatches | cli/commands/watch.js:56 | every result of the `exec` loop is a full match with the greedy capture |
| ImportRegex.MatchedTagShape | cli/commands/watch.js:53 | a matched tag starts with `<link` and ends with `>`; its href is one line of at least five characters ending in `.jsx` |
| ImportRegex.CopyOfTagMatches | cli/commands/watch.js:53 | a copy of a matched tag anywhere in the text is itself the start of a match |
| ImportRegex.FirstMatchIsFirstOccurrence | cli/commands/watch.js:56-78 | the tag text of the first match occurs nowhere before it, so `replace(match[0], …)` hits the matched tag |
| InlineText.WatchBuildHTML | cli/commands/watch.js:54-78 | the `exec` loop leaves `newContents` equal to the page in which each match's module value replaced the tag's first occurrence, in match order, falsy modules skipped |
| InlineText.WatchAllMissingUnchanged | cli/commands/watch.js:73-77 | when every module is falsy the page is unchanged |
| InlineText.FirstTagInPlace | cli/commands/watch.js:74 | the first tag is replaced where `exec` found it: the text before and after it is kept |
| InlineText.WatchFirstStep | cli/commands/watch.js:73-77 | the first loop step keeps the page for a falsy module and otherwise puts the module's value in place of the first tag |
| InlineText.DevBuildHTML | dev.js:33-53 | the nested loops leave `newContents` equal to the page in which every output file's value in turn replaced the first occurrence of each matched tag |
| InlineText.ReplaceEachAbsent | dev.js:47-52 | once a tag no longer occurs, further output files change nothing |
| InlineText.ReplaceEachSingle | dev.js:47-52 | a bundle with one output file replaces the tag's first occurrence once |
| DepGraph.Writes | cli/commands/watch.js:127-139 | each node write records a file that the dependent directly imports, and ranks below the entry |
| DepGraph.WalkIsReachableSet | cli/commands/watch.js:119-142 | the list `linkJSImportsRecursive` returns holds exactly the files reachable from the entry through imports |
| DepGraph.WritesCoverWalk | cli/commands/watch.js:127-139 | the nodes written are exactly the files listed |
| DepGraph.WalkBelow | cli/commands/watch.js:132 | every listed file ranks below the entry, so the entry is never relinked within its own walk |
| DepGraph.ApplyLast | cli/commands/watch.js:133-137 | the last write to a node decides it: the node holds exactly that write's dependent |
| DepGraph.ApplyNamed | cli/commands/watch.js:133-137 | every written node ends with exactly one dependent, that of a write to it |
| DepGraph.ApplySingletons | cli/commands/watch.js:133-137 | recreating nodes keeps every dependent set of size at most one |
| DepGraph.WritesParents | cli/commands/watch.js:137 | every dependent recorded is the entry or a listed file |
| DepGraph.LinkJSResult | cli/commands/watch.js:127-139 | after linking, each listed file holds one dependent that imports it directly and is the entry or listed; every other node is as before |
| DepGraph.CssWrites | cli/commands/watch.js:213-222 | one write per included file, in order, each naming the compiled stylesheet |
| DepGraph.LinkCSSResult | cli/commands/watch.js:212-223 | after `linkCSSImports` each included file maps to exactly the stylesheet; every other node is as before |
| DepGraph.JsKey | cli/commands/watch.js:178 | the key `watchJS` looks up holds no backslash |
| DepGraph.JSTargets | cli/commands/watch.js:174-188 | every script a change builds lies under `js/scripts` and holds no backslash |
| DepGraph.TargetsEndChains | cli/commands/watch.js:180-186 | every script built ends a chain of recorded dependents starting at the changed file |
| DepGraph.ChainEndsAreTargets | cli/commands/watch.js:180-186 | conversely the end of every such chain is built |
| DepGraph.SingletonsBuildAtMostOne | cli/commands/watch.js:184-186 | with one dependent per node a change builds at most one script |
| DepGraph.TargetsThroughNode | cli/commands/watch.js:184-186 | through a node with one dependent the change builds what that dependent's change builds |
| DepGraph.LinkCSSKeepsNotPartial | cli/commands/watch.js:246-250 | linking a compiled stylesheet keeps every recorded dependent a non-partial |
| DepGraph.CSSTargets | cli/commands/watch.js:243-253 | what a stylesheet change compiles is never a partial |
| WatchSession.JsOutputs | cli/commands/watch.js:149 | `buildJS` writes two files, among them `assets/js/<name>.js` |
| WatchSession.CssOutputs | cli/commands/watch.js:237-238 | `buildCSS` writes two files, among them `assets/css/<name>.css` |
| WatchSession.RenderPage | cli/commands/watch.js:49-91 | the written page is the minified result of the inlining loop over the file's contents |
| WatchSession.Session.constructor | cli/commands/watch.js:117 | the session starts with empty dictionaries, no outputs and the session invariant |
| WatchSession.Session.BuildHTML | cli/commands/watch.js:49-96 | writes `dist/<basename>` with the inlined, minified page and leaves both dictionaries alone |
| WatchSession.Session.UnlinkHTML | cli/commands/watch.js:108-114 | removes exactly `dist/<basename>` if it exists |
| WatchSession.Session.LinkJSImportsRecursive | cli/commands/watch.js:119-142 | returns the pre-order list of reachable files, and the dictionary is the old one after the recursive writes |
| WatchSession.Session.BuildJS | cli/commands/watch.js:144-172 | links the entry's manifest, writes the script and its map, and keeps one dependent per node |
| WatchSession.Session.WatchJS | cli/commands/watch.js:174-188 | builds at most one script; the new state is exactly that of building the scripts at the end of the dependent chains from the changed file, or unchanged when there are none |
| WatchSession.Session.BuildScript | cli/commands/watch.js:180-181 | a file under `js/scripts` is built itself |
| WatchSession.Session.PassOnJS | cli/commands/watch.js:182-186 | another file with a node passes the change to its recorded dependent |
| WatchSession.Session.WatchDependentsJS | cli/commands/watch.js:184-186 | the loop over the dependents read before it runs at most once, with the effect of `watchJS` on the dependent |
| WatchSession.Session.WatchDependentJS | cli/commands/watch.js:185 | one iteration: the state after `watchJS` on the dependent |
| WatchSession.Session.UnlinkJS | cli/commands/watch.js:196-207 | removes exactly `assets/js/<basename minus .jsx>.js` and its map, each if present |
| WatchSession.Session.LinkCSSImports | cli/commands/watch.js:212-223 | the CSS dictionary is the old one with every included file recreated with the stylesheet as its one dependent |
| WatchSession.Session.BuildCSS | cli/commands/watch.js:225-241 | links the included files, writes the CSS and its map, and keeps every dependent a non-partial |
| WatchSession.Session.WatchCSS | cli/commands/watch.js:243-253 | a non-partial is compiled; a partial compiles the at most one stylesheet recorded on its node, or nothing |
| WatchSession.Session.WatchDependentsCSS | cli/commands/watch.js:249-251 | the loop over a partial's dependents compiles its one dependent directly, one hop only |
| WatchSession.Session.WatchDependentCSS | cli/commands/watch.js:250 | a dependent is not a partial, so `watchCSS` compiles it |
| WatchSession.Session.UnlinkCSS | cli/commands/watch.js:261-267 | removes the compiled `.css` if present and leaves any `.css.map` behind |
| BuildCommand.BuildDataset | cli/commands/build.js:62-67 | the `for…in` loop, visiting the attributes in any order, builds exactly the dataset |
| BuildCommand.DataKey | cli/commands/build.js:62-67 | `k` is a dataset key exactly when `data-k` is an attribute, and it carries that attribute's value |
| BuildCommand.DataAttribute | cli/commands/build.js:64-65 | every `data-` attribute appears under its name minus the prefix |
| BuildCommand.ScriptPathClean | cli/commands/build.js:46 | the entry point passed to esbuild holds no backslash |
| BuildCommand.BuildPage | cli/commands/build.js:37-86 | the page is built exactly when every import link has an `href` and a `default` that is falsy or a function; otherwise resolving the missing href, or calling the non-function `default`, throws |
| BuildCommand.NotCallableThrows | cli/commands/build.js:71-78 | a link whose module's `default` is truthy but not a function stops the page; a factory or a falsy `default` lets it through |
| BuildCommand.MissingDefaultKept | cli/commands/build.js:73-76 | a link whose module's `default` is falsy stays in the tree |
| BuildCommand.ImportReplaced | cli/commands/build.js:78-84 | when the `default` is a factory, the link gives way to the factory's string result, or to the rendered string of any other result |
| BuildCommand.InlineAppend | cli/commands/build.js:42-85 | each selected link is handled on its own: a skipped link does not stop the others |
| BuildCommand.InlineNoImports | cli/commands/build.js:42-85 | a page without import links is left as it was |
| BuildCommand.InlineRemovesImports | cli/commands/build.js:42-85 | when every module's `default` is a factory and inserted markup brings no link of its own, no import link survives |
| BuildCommand.CssOutPathNames | cli/commands/build.js:153 | `<stem>.scss` compiles to `<stem>.css` with its map `<stem>.css.map` beside it |
| BuildCommand.BuildStylesheets | cli/commands/build.js:168-174 | the glob loop compiles the non-partial stylesheets, in order |
| BuildCommand.NonPartialsExact | cli/commands/build.js:170 | a file is compiled exactly when it is listed and its basename does not start with `_` |
| DevServer.EntryPointsShape | dev.js:72-74 | one entry string becomes a one-element list, and a list is kept as it is |
| DevServer.RenderPage | dev.js:26-65 | the written page is the minified result of the nested inlining loops |
| DevServer.Server.BuildHTML | dev.js:26-68 | writes `out + basename` with the inlined, minified page |
| DevServer.Server.BuildJS | dev.js:71-90 | writes the script and map of every entry point |
| DevServer.Server.BuildSCSS | dev.js:93-105 | writes `out + <basename minus .scss>.css` and its map |
| DevServer.Server.WatchHTML | dev.js:136-138 | a page change writes `./dist/<basename>` |
| DevServer.Server.UnlinkHTML | dev.js:142-148 | removes exactly `./dist/<basename>` if present |
| DevServer.Server.WatchJS | dev.js:151-153 | a script change writes `./dist/assets/js/<name>.js` and its map |
| DevServer.Server.UnlinkJS | dev.js:157-167 | removes exactly `<basename minus .jsx>.js` and its map, each if present |
| DevServer.Server.WatchSCSS | dev.js:170-174 | a partial changes nothing; any other stylesheet is compiled into `./dist/assets/css/` |
| DevServer.Server.UnlinkSCSS | dev.js:178-184 | removes exactly the compiled `.css` if present |
| DevServer.JsOutputsOfOne | dev.js:76-88 | one entry point gives exactly its script and its map |
| DevServer.JsOutputsOfExact | dev.js:76-88 | `buildJS` writes the outputs of its entry points and nothing else |
| DevServer.ScssMapSurvivesUnlink | dev.js:178-184 | after compiling and then unlinking a stylesheet, its `.css` is gone and its `.css.map` remains |
| DevServer.JsxUnlinkRemovesBuild | dev.js:157-167 | for a `.jsx` script, unlink removes exactly what its build wrote |
| DevServer.JsUnlinkLeavesBuild | dev.js:157-167 | for a `.js` script, the compiled `<stem>.js` survives the unlink |
| Vdom.CopyPropsLoop | didact.js:25-30 | the `forEach` over the prop keys yields the node with every prop but `children` assigned in key order |
| Vdom.WrapChildrenShape | jsx-sub.js:17-18 | one element per child, in order: objects kept, other values wrapped in a text element holding them as `nodeValue` |
| Vdom.WithoutChildrenExact | jsx-sub.js:13-20 | an element's props are exactly the given props other than `children` |
| Vdom.CreateElementChildren | jsx-sub.js:13-20 | a `children` prop passed in is overridden by the computed children and none remains among the props |
| Vdom.CopyPropsExact | didact.js:25-30 | copying sets exactly the non-`children` prop names, each to the value of the last prop of that name (`dom[name] = element.props[name]`), keeps any other property and changes nothing but the properties |
| JsxSub.RenderNode | jsx-sub.js:30-63 | the method's result is the container after `render`, or `None` where `render` throws (a prop named `on`, or an `on…` prop whose value is not a function) |
| JsxSub.RenderEach | jsx-sub.js:61 | rendering the children in order into one container, stopping at a throw |
| JsxSub.RenderToStringNode | jsx-sub.js:65-96 | the method returns what `renderToString` returns and leaves the container as it does |
| JsxSub.EventNameOnClick | jsx-sub.js:51-53 | `onClick` listens for `click` |
| JsxSub.EventNameInverse | jsx-sub.js:51-53 | `on` + an event name with its first letter upper-cased gives that event name back |
| JsxSub.RenderAppends | jsx-sub.js:30-63 | `render` appends the element's contribution (its node, or a fragment's children's nodes) to the container, or throws |
| JsxSub.RenderAllAppends | jsx-sub.js:38 | rendering a list appends the concatenated contributions, or throws |
| JsxSub.JsxPropsKeepsChildren | jsx-sub.js:47-59 | assigning props changes neither the node's kind nor its children |
| JsxSub.AppendedOnce | jsx-sub.js:62 | a non-fragment element adds exactly one child at the end of its container and changes nothing else of it |
| JsxSub.JsxPropsFails | jsx-sub.js:51-55 | prop assignment throws exactly when some prop is named `on` (`name[2]` is undefined) or is an `on…` prop whose value is not a function (`addEventListener` refuses it) |
| JsxSub.OnClickNeedsFunction | jsx-sub.js:51-55 | `onClick` with a string value throws, and with a function adds one `click` listener holding it |
| JsxSub.JsxPropsListeners | jsx-sub.js:51-55 | the node's listeners are one per `on…` prop, in key order |
| JsxSub.JsxPropsKeys | jsx-sub.js:47-58 | the node's properties are exactly the props that are neither `children` nor `on…`, each holding the value of the last prop of its name |
| JsxSub.StringNodeNoListeners | jsx-sub.js:82-87 | `renderToString` adds no listener: `on…` props become plain properties |
| JsxSub.StringChildrenKeeps | jsx-sub.js:89 | children append their nodes in order and fragment children are lost, since they are rendered into `undefined` |
| JsxSub.FragmentToStringNothing | jsx-sub.js:72-74 | a fragment returns `undefined` and leaves the container alone |
| JsxSub.ToStringElement | jsx-sub.js:91-95 | without a container an element returns its `outerHTML`; with one it is appended and nothing is returned |
| Didact.RenderNode | didact.js:22-34 | the method's result is the container after `render` |
| Didact.RenderChildrenAppends | didact.js:32 | rendering children appends one node per child, in order, and changes nothing else |
| Didact.RenderAppendsOnce | didact.js:33 | the element is appended once, after the existing children, with one child node per child element |
| Didact.NodeKindAndListeners | didact.js:23-30 | a text element becomes a text node and any other kind an element of that tag; no listener is added; the properties are exactly the non-`children` props, each holding the value of the last prop of its name |

## Left out

- File system I/O: reading sources, `writeToFile`, `fs.existsSync`/`rmSync`, and directory creation (`createFileStructure`, the `mkdirSync` calls). Output files are a set of paths, and page contents are returned rather than written.
- The foreign tools (esbuild, sass, html-minifier, jsdom, the HTML parser and its `toString`, module evaluation with `new Function`, `outerHTML`) are opaque parameters. They are total functions: a compile error thrown by `esbuild.buildSync` or `sass.renderSync` (watch.js, build.js) is not modelled, so the model has no state for a handler that stops part-way. Each manifest is taken to list its entry point.
- Paths.Basename: POSIX `path.basename` only, taking everything after the last `/`. The trailing-separator stripping of Node's `path.basename` and the win32 split on `\` are not modelled.
- `path.resolve`, `path.relative` and `path.dirname` depend on the working directory and are parameters. `path.join` is concatenation with one separator, without normalising `.`, `..` or repeated separators.
- chokidar, the glob callbacks and the express server are left out. Events are modelled as direct handler calls, one at a time, in any order.
- Console logging is left out.
- The `watch` and `dev.js` page loops: `String.prototype.replace` inserts the replacement literally. Its `$&`/`$1` substitution patterns are not modelled, and neither is the conversion of a non-function, non-string `importData.default` (watch.js) or `importData` (dev.js) to a string.
- WatchSession.RenderPage, DevServer.RenderPage: when `importData.default` (watch.js:74) or `importData` (dev.js:51) is a function, as a component factory is, `replace` calls it with the matched tag text, its offset and the whole page, and inserts its result. The model takes the inserted text to depend on the `href` alone, through `evalImport` and `outputs`.
- `buildHTML` of `build.js` replaces elements in place with `replaceWith`. Here it is a function that rebuilds the tree as a value, so aliasing between nodes is not captured.
- A throw the model does capture (a missing `href` or a truthy non-function `default` in `build.js`, a bad listener prop in `render`) is an all-or-nothing `None`: the changes made to the tree or the DOM before the throw are not kept.
- The glob loops over pages and scripts in `build.js` (cli/commands/build.js:105-109, 141-145) and its `buildJS` (cli/commands/build.js:116-139) only call foreign tools. They are not modelled.
- DevServer.Server.BuildJS: the `esbuild.build` promise and its `.catch` are not modelled. The outputs are taken as written when the call returns, and a failing build is not modelled.
- DevServer.JsOutputsOfExact: each entry point is taken to be written as `out + [name].js`. That is esbuild's naming for one entry point, the only way dev.js calls `buildJS` (dev.js:152), or for entries that share a directory. For entries in different directories esbuild's default `[dir]/[name]` adds subdirectories, which the model does not state.
- JsxSub: the `docLocale` selection (jsx-sub.js:5-11) only chooses which document builds the nodes and is left out.
- JsxSub: `toLowerCase` is modelled on ASCII letters only.
- JsxSub: props are a sequence in key order, so JavaScript's integer-key ordering of `Object.keys` is not modelled. Prop and child values are strings, numbers, booleans or functions. Objects other than elements, `null` and `undefined` are not modelled. A `null` child counts as an object and is not wrapped.
- JsxSub, Didact: the DOM's own throws and deduplication are not modelled. `document.createElement` throws `InvalidCharacterError` on an invalid tag name such as `""` or `"my tag"`, and `appendChild` into a text node throws `HierarchyRequestError`, as a `TEXT_ELEMENT` given children would. `addEventListener` ignores a repeat of the same type and function, as `onClick` and `onclick` holding one function give, while `JsxSub.ListenersOf` lists both.
- JsxSub: reflected DOM properties, such as `className` setting an attribute, are not modelled. Properties are a plain map.
- WatchSession.Session.LinkJSImportsRecursive: requires a rank witness that the esbuild manifest is acyclic and closed. On an import cycle the source recurses without end.
- WatchSession.Session.WatchJS: requires a rank witness that the recorded dependents form no cycle. On a cycle the source recurses without end, because `watchJS` keeps no visited set.
- WatchSession.Session.BuildJS: requires the session invariant, which includes the acyclicity of every manifest.
