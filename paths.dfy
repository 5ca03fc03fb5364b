/** Path and output-name rules shared by the three commands: `path.basename`
    with and without a suffix, the `_` partial convention, the backslash fix
    applied before paths reach esbuild, and the names of compiled artifacts. */
module Paths {
  type Path = string

  predicate StartsWith(s: string, prefix: string) {
    |prefix| <= |s| && s[..|prefix|] == prefix
  }

  predicate EndsWith(s: string, suffix: string) {
    |suffix| <= |s| && s[|s| - |suffix|..] == suffix
  }

  predicate OccursAt(s: string, sub: string, i: nat) {
    i + |sub| <= |s| && s[i..i + |sub|] == sub
  }

  /** `String.prototype.includes`. */
  predicate Contains(s: string, sub: string) {
    exists i | 0 <= i <= |s| - |sub| :: OccursAt(s, sub, i)
  }

  /** Index of the last `c` in `s[..n]`, or -1. */
  function LastIndexBefore(s: string, c: char, n: nat): (r: int)
    requires n <= |s|
    ensures -1 <= r < n
    ensures r >= 0 ==> s[r] == c
    ensures forall j | r < j < n :: s[j] != c
  {
    if n == 0 then -1
    else if s[n - 1] == c then n - 1
    else LastIndexBefore(s, c, n - 1)
  }

  /** `s.lastIndexOf(c)`: index of the last `c` in `s`, or -1. */
  function LastIndexOf(s: string, c: char): (r: int)
    ensures -1 <= r < |s|
    ensures r >= 0 ==> s[r] == c
    ensures forall j | r < j < |s| :: s[j] != c
  {
    LastIndexBefore(s, c, |s|)
  }

  /** POSIX `path.basename(p)`: everything after the last `/`. */
  function Basename(p: Path): (b: string)
    ensures '/' !in b
  {
    p[LastIndexOf(p, '/') + 1..]
  }

  /** `path.basename(p, ext)`: the basename without the suffix `ext`, except
      that a basename equal to `ext` is kept whole and a whole path equal to
      `ext` gives the empty string. */
  function BasenameExt(p: Path, ext: string): string {
    if ext != [] && p == ext then []
    else
      var b := Basename(p);
      if EndsWith(b, ext) && b != ext then b[..|b| - |ext|] else b
  }

  /** A stylesheet whose basename starts with `_` is a partial and is never
      compiled on its own. */
  predicate IsPartial(file: Path) {
    StartsWith(Basename(file), "_")
  }

  /** `s.replace(/\\/g, "/")`. */
  function ReplaceBackslashes(s: string): (r: string)
    ensures |r| == |s|
    ensures forall i | 0 <= i < |s| :: r[i] == if s[i] == '\\' then '/' else s[i]
  {
    if s == [] then []
    else [if s[0] == '\\' then '/' else s[0]] + ReplaceBackslashes(s[1..])
  }

  /** esbuild's default output name for an entry: `[name].js`, where the name
      is the basename without its last extension. */
  function Stem(b: string): string {
    var d := LastIndexOf(b, '.');
    if d > 0 then b[..d] else b
  }

  /** File name of a compiled stylesheet: `basename(file, ".scss") + ".css"`. */
  function CssFileName(file: Path): string {
    BasenameExt(file, ".scss") + ".css"
  }

  /** File name the unlink handlers derive for a script:
      `basename(file, ".jsx") + ".js"`. */
  function JsFileName(file: Path): string {
    BasenameExt(file, ".jsx") + ".js"
  }

  /** File name esbuild writes for an entry script. */
  function EsbuildFileName(entry: Path): string {
    Stem(Basename(entry)) + ".js"
  }

  /** The source map written beside an output file. */
  function MapOf(out: Path): Path {
    out + ".map"
  }

  // ---------------------------------------------------------------- lemmas

  /** The basename is the whole path or the part after a `/` that ends it. */
  lemma BasenameIsSuffix(p: Path)
    ensures EndsWith(p, Basename(p))
    ensures Basename(p) == p || p[|p| - |Basename(p)| - 1] == '/'
  {
  }

  /** The replacement leaves no backslash behind and changes nothing else. */
  lemma ReplaceBackslashesClean(s: string)
    ensures '\\' !in ReplaceBackslashes(s)
    ensures '\\' !in s ==> ReplaceBackslashes(s) == s
    ensures ReplaceBackslashes(ReplaceBackslashes(s)) == ReplaceBackslashes(s)
  {
    var r := ReplaceBackslashes(s);
    assert forall i | 0 <= i < |r| :: r[i] != '\\';
    if '\\' !in s {
      assert forall i | 0 <= i < |s| :: r[i] == s[i];
    }
    var rr := ReplaceBackslashes(r);
    assert forall i | 0 <= i < |r| :: rr[i] == r[i];
  }

  /** `basename(file, ext)` strips `ext` exactly when the basename is `ext`
      preceded by at least one character. */
  lemma BasenameExtStrips(file: Path, stem: string, ext: string)
    requires Basename(file) == stem + ext && stem != [] && ext != []
    ensures BasenameExt(file, ext) == stem
  {
    var b := Basename(file);
    assert b[|b| - |ext|..] == ext;
    assert b[..|b| - |ext|] == stem;
    if file == ext {
      BasenameIsSuffix(file);
      assert false;
    }
  }

  /** A basename that does not end in `ext` is returned unchanged. */
  lemma BasenameExtKeeps(file: Path, ext: string)
    requires !EndsWith(Basename(file), ext) && file != ext
    ensures BasenameExt(file, ext) == Basename(file)
  {
  }

  /** Every name `basename(_, ext)` yields is free of `/`. */
  lemma BasenameExtIsName(file: Path, ext: string)
    ensures '/' !in BasenameExt(file, ext)
  {
    var b := Basename(file);
    if !(ext != [] && file == ext) && EndsWith(b, ext) && b != ext {
      var r := b[..|b| - |ext|];
      forall i | 0 <= i < |r| ensures r[i] != '/' {
        assert r[i] == b[i];
      }
    }
  }

  /** The last `.` of `stem + ext` is the first character of `ext` when
      `ext` has no other `.`. */
  lemma LastDotOfExtension(stem: string, ext: string)
    requires ext != [] && ext[0] == '.' && '.' !in ext[1..]
    ensures LastIndexOf(stem + ext, '.') == |stem|
  {
    var b := stem + ext;
    var d := LastIndexOf(b, '.');
    assert b[|stem|] == '.';
  }

  /** For a `.jsx` source the name the unlink handler derives is the name
      esbuild wrote. */
  lemma JsxUnlinkNameMatchesBuild(file: Path, stem: string)
    requires Basename(file) == stem + ".jsx" && stem != []
    ensures JsFileName(file) == EsbuildFileName(file)
  {
    BasenameExtStrips(file, stem, ".jsx");
    LastDotOfExtension(stem, ".jsx");
    var b := Basename(file);
    assert b[..|stem|] == stem;
  }

  /** For a `.js` source the unlink handler derives `<name>.js.js`, which is
      not the `<name>.js` esbuild wrote: the compiled script survives the
      removal of its source. */
  lemma JsUnlinkNameMissesBuild(file: Path, stem: string)
    requires Basename(file) == stem + ".js" && stem != []
    ensures JsFileName(file) == stem + ".js.js"
    ensures EsbuildFileName(file) == stem + ".js"
    ensures JsFileName(file) != EsbuildFileName(file)
  {
    var b := Basename(file);
    NotJsx(file, stem);
    BasenameExtKeeps(file, ".jsx");
    StemOfScript(stem, b);
  }

  lemma NotJsx(file: Path, stem: string)
    requires Basename(file) == stem + ".js"
    ensures !EndsWith(Basename(file), ".jsx") && file != ".jsx"
  {
    var b := Basename(file);
    assert b[|b| - 1] == 's';
    assert file[|file| - 1] == 's' by {
      BasenameIsSuffix(file);
      assert file[|file| - |b|..][|b| - 1] == b[|b| - 1];
    }
  }

  lemma StemOfScript(stem: string, b: string)
    requires b == stem + ".js" && stem != []
    ensures Stem(b) == stem
  {
    LastDotOfExtension(stem, ".js");
    assert b[..|stem|] == stem;
  }
}
