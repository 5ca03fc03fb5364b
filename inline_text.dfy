/** The text-level component inlining of the two development `buildHTML`
    functions: every import tag found by the pattern in the ORIGINAL page is
    replaced, at its first occurrence in the text built so far, by what the
    imported module produced.

    Bundling and evaluating a module is not modelled: it is a parameter that
    maps the captured href to what evaluation yields. */
module InlineText {
  import opened Wrappers
  import opened Paths
  import opened Text
  import opened ImportRegex

  /** All matches lie inside `s`. */
  predicate InText(s: string, ms: seq<ImportMatch>) {
    forall t | 0 <= t < |ms| :: ms[t].start <= ms[t].hrefStart <= ms[t].hrefEnd <= ms[t].end <= |s|
  }

  lemma AllMatchesInText(s: string, from: nat)
    requires from <= |s|
    ensures InText(s, AllMatches(s, from))
  {
    var ms := AllMatches(s, from);
    forall t | 0 <= t < |ms|
      ensures ms[t].start <= ms[t].hrefStart <= ms[t].hrefEnd <= ms[t].end <= |s|
    {
      AllMatchesAreMatches(s, from, t);
      MatchedTagShape(s, ms[t]);
    }
  }

  // ------------------------------------------------------------ watch.js

  /** One iteration of the `watch` loop: a module that evaluated to a falsy
      value leaves the text alone (the error is only logged); otherwise its
      `default` replaces the first occurrence of the tag. */
  function WatchStep(contents: string, m: ImportMatch, evalModule: string -> Option<string>, acc: string): string
    requires m.start <= m.hrefStart <= m.hrefEnd <= m.end <= |contents|
  {
    match evalModule(Href(contents, m))
    case None => acc
    case Some(v) => ReplaceFirst(acc, TagText(contents, m), v)
  }

  /** The `watch` loop run over the matches `ms`, starting from `acc`. */
  function WatchInline(contents: string, ms: seq<ImportMatch>, evalModule: string -> Option<string>, acc: string): string
    requires InText(contents, ms)
    decreases |ms|
  {
    if ms == [] then acc
    else WatchInline(contents, ms[1..], evalModule, WatchStep(contents, ms[0], evalModule, acc))
  }

  /** The page the `watch` loop produces from `contents`. */
  function WatchPage(contents: string, evalModule: string -> Option<string>): string {
    AllMatchesInText(contents, 0);
    WatchInline(contents, AllMatches(contents, 0), evalModule, contents)
  }

  /** `buildHTML` of the `watch` command up to minification: the `exec` loop
      over the page, reassigning `newContents` once per match. */
  method WatchBuildHTML(contents: string, evalModule: string -> Option<string>) returns (newContents: string)
    ensures newContents == WatchPage(contents, evalModule)
  {
    AllMatchesInText(contents, 0);
    newContents := contents;
    var lastIndex: nat := 0;
    var importMatch := Exec(contents, lastIndex);
    while importMatch.Some?
      invariant lastIndex <= |contents|
      invariant importMatch == Exec(contents, lastIndex)
      invariant InText(contents, AllMatches(contents, lastIndex))
      invariant WatchInline(contents, AllMatches(contents, lastIndex), evalModule, newContents)
             == WatchInline(contents, AllMatches(contents, 0), evalModule, contents)
      decreases |contents| - lastIndex
    {
      var m := importMatch.value;
      AllMatchesInText(contents, m.end);
      assert AllMatches(contents, lastIndex) == [m] + AllMatches(contents, m.end);
      newContents := WatchStep(contents, m, evalModule, newContents);
      lastIndex := m.end;
      importMatch := Exec(contents, lastIndex);
    }
  }

  /** When no module evaluates to a truthy value, the page is unchanged. */
  lemma {:induction false} WatchAllMissingUnchanged(contents: string, ms: seq<ImportMatch>,
                                                    evalModule: string -> Option<string>, acc: string)
    requires InText(contents, ms)
    requires forall t | 0 <= t < |ms| :: evalModule(Href(contents, ms[t])).None?
    ensures WatchInline(contents, ms, evalModule, acc) == acc
    decreases |ms|
  {
    if ms != [] {
      assert evalModule(Href(contents, ms[0])).None?;
      WatchAllMissingUnchanged(contents, ms[1..], evalModule, acc);
    }
  }

  lemma FirstTagFirstOccurs(contents: string, m: ImportMatch)
    requires AllMatches(contents, 0) != [] && AllMatches(contents, 0)[0] == m
    ensures m.start < m.end <= |contents|
    ensures forall j: nat | j < m.start :: !OccursAt(contents, TagText(contents, m), j)
  {
    FirstMatchIsFirstOccurrence(contents);
    var tag := TagText(contents, m);
    forall j: nat | j < m.start ensures !OccursAt(contents, tag, j) {
    }
  }

  /** The first tag of the page is replaced where `exec` found it: the text
      before and after the tag is kept and the replacement takes its place. */
  lemma FirstTagInPlace(contents: string, m: ImportMatch, v: string)
    requires AllMatches(contents, 0) != [] && AllMatches(contents, 0)[0] == m
    ensures m.start < m.end <= |contents|
    ensures ReplaceFirst(contents, TagText(contents, m), v) == contents[..m.start] + v + contents[m.end..]
  {
    FirstTagFirstOccurs(contents, m);
    var tag := TagText(contents, m);
    forall j: nat | j < m.start ensures !OccursAt(contents, contents[m.start..m.end], j) {
      assert !OccursAt(contents, tag, j);
    }
    ReplaceSliceFirst(contents, m.start, m.end, v);
  }

  /** Replacing the first occurrence of a slice that occurs nowhere earlier
      replaces that slice. */
  lemma ReplaceSliceFirst(s: string, i: nat, e: nat, v: string)
    requires i <= e <= |s|
    requires forall j: nat | j < i :: !OccursAt(s, s[i..e], j)
    ensures ReplaceFirst(s, s[i..e], v) == s[..i] + v + s[e..]
  {
    ReplaceAtFirst(s, s[i..e], v, i);
  }

  /** Hence the first step of the `watch` loop replaces the first tag in
      place, unless its module evaluated to a falsy value. */
  lemma WatchFirstStep(contents: string, m: ImportMatch, evalModule: string -> Option<string>)
    requires AllMatches(contents, 0) != [] && AllMatches(contents, 0)[0] == m
    requires m.start <= m.hrefStart <= m.hrefEnd <= m.end <= |contents|
    ensures evalModule(Href(contents, m)).None? ==> WatchStep(contents, m, evalModule, contents) == contents
    ensures evalModule(Href(contents, m)).Some? ==>
      WatchStep(contents, m, evalModule, contents)
      == contents[..m.start] + evalModule(Href(contents, m)).value + contents[m.end..]
  {
    if evalModule(Href(contents, m)).Some? {
      FirstTagInPlace(contents, m, evalModule(Href(contents, m)).value);
    }
  }

  // -------------------------------------------------------------- dev.js

  /** The inner loop of `dev.js`: each output file's value in turn replaces
      the first occurrence of the tag in the accumulated text. */
  function ReplaceEach(acc: string, tag: string, values: seq<string>): string
    decreases |values|
  {
    if values == [] then acc else ReplaceEach(ReplaceFirst(acc, tag, values[0]), tag, values[1..])
  }

  /** The outer loop of `dev.js` over the matches `ms`. */
  function DevInline(contents: string, ms: seq<ImportMatch>, outputs: string -> seq<string>, acc: string): string
    requires InText(contents, ms)
    decreases |ms|
  {
    if ms == [] then acc
    else
      var m := ms[0];
      DevInline(contents, ms[1..], outputs, ReplaceEach(acc, TagText(contents, m), outputs(Href(contents, m))))
  }

  /** The page the `dev.js` loop produces from `contents`. */
  function DevPage(contents: string, outputs: string -> seq<string>): string {
    AllMatchesInText(contents, 0);
    DevInline(contents, AllMatches(contents, 0), outputs, contents)
  }

  /** `buildHTML` of `dev.js` up to minification: the `exec` loop with the
      nested loop over the bundle's output files. */
  method DevBuildHTML(contents: string, outputs: string -> seq<string>) returns (newContents: string)
    ensures newContents == DevPage(contents, outputs)
  {
    AllMatchesInText(contents, 0);
    newContents := contents;
    var lastIndex: nat := 0;
    var importMatch := Exec(contents, lastIndex);
    while importMatch.Some?
      invariant lastIndex <= |contents|
      invariant importMatch == Exec(contents, lastIndex)
      invariant InText(contents, AllMatches(contents, lastIndex))
      invariant DevInline(contents, AllMatches(contents, lastIndex), outputs, newContents)
             == DevInline(contents, AllMatches(contents, 0), outputs, contents)
      decreases |contents| - lastIndex
    {
      var m := importMatch.value;
      AllMatchesInText(contents, m.end);
      assert AllMatches(contents, lastIndex) == [m] + AllMatches(contents, m.end);
      var tag := TagText(contents, m);
      var values := outputs(Href(contents, m));
      var before := newContents;
      for n := 0 to |values|
        invariant ReplaceEach(newContents, tag, values[n..]) == ReplaceEach(before, tag, values)
      {
        assert values[n..][1..] == values[n + 1..];
        newContents := ReplaceFirst(newContents, tag, values[n]);
      }
      lastIndex := m.end;
      importMatch := Exec(contents, lastIndex);
    }
  }

  /** A tag that no longer occurs in the accumulated text leaves it unchanged,
      whatever the outputs. */
  lemma {:induction false} ReplaceEachAbsent(acc: string, tag: string, values: seq<string>)
    requires forall j :: !OccursAt(acc, tag, j)
    ensures ReplaceEach(acc, tag, values) == acc
    decreases |values|
  {
    if values != [] {
      ReplaceEachAbsent(acc, tag, values[1..]);
    }
  }

  /** A bundle with one output file behaves like the `watch` replacement. */
  lemma ReplaceEachSingle(acc: string, tag: string, v: string)
    ensures ReplaceEach(acc, tag, [v]) == ReplaceFirst(acc, tag, v)
  {
    assert [v][1..] == [];
  }
}
