/** The component-import pattern of the two `buildHTML` loops,
    `/<link +rel="import" *href="(.+\.jsx)" *\/?>/g`, as a matcher over text.

    A match at position `i` reads `<link`, one or more spaces, `rel="import"`,
    any spaces, `href="`, then the capture: one or more characters other than
    line terminators ending in `.jsx`, followed by `"`, any spaces, an
    optional `/` and `>`. The capture is greedy, so its end is the LAST
    position on the line after which the rest of the pattern still matches.
    `exec` with the `g` flag returns the leftmost match at or after
    `lastIndex` and moves `lastIndex` to the end of that match. */
module ImportRegex {
  import opened Wrappers
  import opened Paths

  /** One result of `exec`: the tag is `s[start..end]` (`match[0]`) and the
      captured href is `s[hrefStart..hrefEnd]` (`match[1]`). */
  datatype ImportMatch = ImportMatch(start: nat, hrefStart: nat, hrefEnd: nat, end: nat)

  function TagText(s: string, m: ImportMatch): string
    requires m.start <= m.end <= |s|
  {
    s[m.start..m.end]
  }

  function Href(s: string, m: ImportMatch): string
    requires m.hrefStart <= m.hrefEnd <= |s|
  {
    s[m.hrefStart..m.hrefEnd]
  }

  /** The characters `.` does not match. */
  predicate IsLineTerminator(c: char) {
    c == '\n' || c == '\r' || c == '\U{2028}' || c == '\U{2029}'
  }

  /** The greedy ` *`: the first position at or after `i` that is not a space. */
  function SkipSpaces(s: string, i: nat): (j: nat)
    requires i <= |s|
    ensures i <= j <= |s|
    decreases |s| - i
  {
    if i < |s| && s[i] == ' ' then SkipSpaces(s, i + 1) else i
  }

  /** ` *` consumes only spaces and stops at a non-space or the end. */
  lemma {:induction false} SkipSpacesStops(s: string, i: nat)
    requires i <= |s|
    ensures var j := SkipSpaces(s, i); forall k | i <= k < j :: s[k] == ' '
    ensures var j := SkipSpaces(s, i); j == |s| || s[j] != ' '
    decreases |s| - i
  {
    if i < |s| && s[i] == ' ' {
      SkipSpacesStops(s, i + 1);
    }
  }

  /** `<link` and one or more spaces at `i`; yields where `rel` must start. */
  function LinkAt(s: string, i: nat): (a: Option<nat>)
    requires i <= |s|
    ensures a.Some? ==> i + 6 <= a.value <= |s|
  {
    if !OccursAt(s, "<link", i) then None
    else
      var a := SkipSpaces(s, i + 5);
      if a == i + 5 then None else Some(a)
  }

  /** `rel="import"` and any spaces at `a`; yields where `href` must start. */
  function RelAt(s: string, a: nat): (b: Option<nat>)
    requires a <= |s|
    ensures b.Some? ==> a + 12 <= b.value <= |s|
  {
    if !OccursAt(s, "rel=\"import\"", a) then None else Some(SkipSpaces(s, a + 12))
  }

  /** `<link +rel="import" *href="` at `i`; yields where the capture starts. */
  function HeadAt(s: string, i: nat): (q: Option<nat>)
    requires i <= |s|
    ensures q.Some? ==> i + 24 <= q.value <= |s|
  {
    match LinkAt(s, i)
    case None => None
    case Some(a) =>
      match RelAt(s, a)
      case None => None
      case Some(b) => if OccursAt(s, "href=\"", b) then Some(b + 6) else None
  }

  /** `" *\/?>` at `k`; yields the end of the whole match. */
  function TailAt(s: string, k: nat): (e: Option<nat>)
    requires k <= |s|
    ensures e.Some? ==> k + 2 <= e.value <= |s|
  {
    if !OccursAt(s, "\"", k) then None
    else
      var j := SkipSpaces(s, k + 1);
      if OccursAt(s, "/>", j) then Some(j + 2)
      else if OccursAt(s, ">", j) then Some(j + 1)
      else None
  }

  /** `s[q..k]` is a possible capture of `(.+\.jsx)`. */
  predicate CaptureOk(s: string, q: nat, k: nat) {
    q + 5 <= k <= |s| && OccursAt(s, ".jsx", k - 4)
    && forall t | q <= t < k :: !IsLineTerminator(s[t])
  }

  /** The capture may end at `k`: the rest of the pattern matches there. */
  predicate Candidate(s: string, q: nat, k: nat) {
    CaptureOk(s, q, k) && TailAt(s, k).Some?
  }

  /** The end of the line that starts at or before `q`. */
  function LineEnd(s: string, q: nat): (e: nat)
    requires q <= |s|
    ensures q <= e <= |s|
    decreases |s| - q
  {
    if q == |s| || IsLineTerminator(s[q]) then q else LineEnd(s, q + 1)
  }

  /** The line holds no terminator, and ends at one or at the end of text. */
  lemma {:induction false} LineEndStops(s: string, q: nat)
    requires q <= |s|
    ensures var e := LineEnd(s, q); forall t | q <= t < e :: !IsLineTerminator(s[t])
    ensures var e := LineEnd(s, q); e == |s| || IsLineTerminator(s[e])
    decreases |s| - q
  {
    if q < |s| && !IsLineTerminator(s[q]) {
      LineEndStops(s, q + 1);
    }
  }

  /** Backtracking of the greedy `.+`: try capture ends from `top` downwards. */
  function GreedyEnd(s: string, q: nat, top: nat): (k: Option<nat>)
    requires q <= top <= |s|
    ensures k.Some? ==> q + 5 <= k.value <= top && TailAt(s, k.value).Some?
    decreases top
  {
    if top < q + 5 then None
    else if OccursAt(s, ".jsx", top - 4) && TailAt(s, top).Some? then Some(top)
    else GreedyEnd(s, q, top - 1)
  }

  /** `k` is the largest candidate capture end up to `top`, or there is none. */
  ghost predicate Largest(s: string, q: nat, top: nat, k: Option<nat>) {
    && (k.Some? ==> k.value <= top && Candidate(s, q, k.value))
    && (k.Some? ==> forall k' | k.value < k' <= top :: !Candidate(s, q, k'))
    && (k.None? ==> forall k': nat | k' <= top :: !Candidate(s, q, k'))
  }

  lemma LargestStep(s: string, q: nat, top: nat, k: Option<nat>)
    requires top >= 1 && Largest(s, q, top - 1, k) && !Candidate(s, q, top)
    ensures Largest(s, q, top, k)
  {
  }

  /** On one line, the search returns the largest candidate end up to `top`,
      or nothing when there is none. */
  lemma {:induction false} GreedyEndLargest(s: string, q: nat, top: nat)
    requires q <= top <= |s| && top <= LineEnd(s, q)
    ensures Largest(s, q, top, GreedyEnd(s, q, top))
    decreases top
  {
    if top < q + 5 {
      assert GreedyEnd(s, q, top) == None;
      NoRoomNoCandidate(s, q, top);
    } else if OccursAt(s, ".jsx", top - 4) && TailAt(s, top).Some? {
      assert GreedyEnd(s, q, top) == Some(top);
      TopIsCandidate(s, q, top);
    } else {
      assert GreedyEnd(s, q, top) == GreedyEnd(s, q, top - 1);
      GreedyEndLargest(s, q, top - 1);
      LargestStep(s, q, top, GreedyEnd(s, q, top - 1));
    }
  }

  lemma NoRoomNoCandidate(s: string, q: nat, top: nat)
    requires top < q + 5
    ensures Largest(s, q, top, None)
  {
  }

  lemma TopIsCandidate(s: string, q: nat, top: nat)
    requires q + 5 <= top <= |s| && top <= LineEnd(s, q)
    requires OccursAt(s, ".jsx", top - 4) && TailAt(s, top).Some?
    ensures Largest(s, q, top, Some(top))
  {
    LineEndStops(s, q);
    assert CaptureOk(s, q, top);
  }

  /** The match starting exactly at `i`, if any. */
  function MatchAt(s: string, i: nat): (r: Option<ImportMatch>)
    requires i <= |s|
    ensures r.Some? ==> r.value.start == i < r.value.end <= |s|
  {
    match HeadAt(s, i)
    case None => None
    case Some(q) =>
      match GreedyEnd(s, q, LineEnd(s, q))
      case None => None
      case Some(k) => Some(ImportMatch(i, q, k, TailAt(s, k).value))
  }

  /** `m` is a match of the pattern in `s`, with the greedy capture. */
  ghost predicate IsMatch(s: string, m: ImportMatch) {
    && m.start <= |s|
    && HeadAt(s, m.start) == Some(m.hrefStart)
    && Candidate(s, m.hrefStart, m.hrefEnd)
    && TailAt(s, m.hrefEnd) == Some(m.end)
    && forall k' | m.hrefEnd < k' :: !Candidate(s, m.hrefStart, k')
  }

  /** What `MatchAt` finds is a match, with the longest capture. */
  lemma MatchAtIsMatch(s: string, i: nat)
    requires i <= |s| && MatchAt(s, i).Some?
    ensures IsMatch(s, MatchAt(s, i).value)
  {
    var q := HeadAt(s, i).value;
    var e := LineEnd(s, q);
    assert GreedyEnd(s, q, e).Some?;
    var k := GreedyEnd(s, q, e).value;
    GreedyEndLargest(s, q, e);
    LineEndStops(s, q);
    forall k' | k < k' ensures !Candidate(s, q, k') {
      if k' > e && k' <= |s| && CaptureOk(s, q, k') {
        assert false;
      }
    }
  }

  /** No match starts in `[a, b)`. */
  ghost predicate NoMatchIn(s: string, a: nat, b: nat) {
    forall j | a <= j < b && j <= |s| :: MatchAt(s, j).None?
  }

  /** `importRegex.exec(s)` with `lastIndex == from`: the first position at
      or after `from` where the pattern matches. */
  function Exec(s: string, from: nat): (r: Option<ImportMatch>)
    requires from <= |s|
    ensures r.Some? ==> from <= r.value.start < r.value.end <= |s|
    decreases |s| - from
  {
    var here := MatchAt(s, from);
    if here.Some? then here
    else if from == |s| then None
    else Exec(s, from + 1)
  }

  /** `exec` returns a match at its own start. */
  lemma {:induction false} ExecFindsMatch(s: string, from: nat)
    requires from <= |s| && Exec(s, from).Some?
    ensures MatchAt(s, Exec(s, from).value.start) == Exec(s, from)
    decreases |s| - from
  {
    if MatchAt(s, from).None? {
      assert Exec(s, from) == Exec(s, from + 1);
      ExecFindsMatch(s, from + 1);
    }
  }

  /** No match starts between `from` and the match `exec` returns. */
  lemma {:induction false} ExecIsLeftmost(s: string, from: nat)
    requires from <= |s| && Exec(s, from).Some?
    ensures NoMatchIn(s, from, Exec(s, from).value.start)
    decreases |s| - from
  {
    if MatchAt(s, from).None? {
      assert Exec(s, from) == Exec(s, from + 1);
      ExecIsLeftmost(s, from + 1);
      NoMatchExtend(s, from, Exec(s, from).value.start);
    }
  }

  /** `exec` returns `null` only when no position at or after `from` matches. */
  lemma {:induction false} ExecNoneNoMatch(s: string, from: nat)
    requires from <= |s| && Exec(s, from).None?
    ensures NoMatchIn(s, from, |s| + 1)
    decreases |s| - from
  {
    if from < |s| {
      assert Exec(s, from) == Exec(s, from + 1);
      ExecNoneNoMatch(s, from + 1);
      NoMatchExtend(s, from, |s| + 1);
    }
  }

  /** A position without a match extends a match-free range to the left. */
  lemma NoMatchExtend(s: string, a: nat, b: nat)
    requires a < |s| && MatchAt(s, a).None? && NoMatchIn(s, a + 1, b)
    ensures NoMatchIn(s, a, b)
  {
  }

  /** The successive results of `exec` until it returns `null`. */
  function AllMatches(s: string, from: nat): seq<ImportMatch>
    requires from <= |s|
    decreases |s| - from
  {
    match Exec(s, from)
    case None => []
    case Some(m) => [m] + AllMatches(s, m.end)
  }

  // ---------------------------------------------------------------- lemmas

  /** The `exec` sequence is the first result followed by the sequence from
      its end. */
  lemma AllMatchesUnfold(s: string, from: nat)
    requires from <= |s| && Exec(s, from).Some?
    ensures AllMatches(s, from) == [Exec(s, from).value] + AllMatches(s, Exec(s, from).value.end)
  {
  }

  /** The matches lie in `[from, n]`, in order and without overlap. */
  predicate Ordered(ms: seq<ImportMatch>, from: nat, n: nat) {
    && (forall t | 0 <= t < |ms| :: from <= ms[t].start < ms[t].end <= n)
    && (forall t | 0 <= t < |ms| - 1 :: ms[t].end <= ms[t + 1].start)
  }

  lemma OrderedCons(m: ImportMatch, rest: seq<ImportMatch>, from: nat, n: nat)
    requires from <= m.start < m.end <= n && Ordered(rest, m.end, n)
    ensures Ordered([m] + rest, from, n)
  {
    var ms := [m] + rest;
    assert forall t | 1 <= t < |ms| :: ms[t] == rest[t - 1];
  }

  /** The results of `exec` lie at or after `from`, in order and without
      overlap. */
  lemma {:induction false} AllMatchesOrdered(s: string, from: nat)
    requires from <= |s|
    ensures Ordered(AllMatches(s, from), from, |s|)
    decreases |s| - from
  {
    if Exec(s, from).Some? {
      var m := Exec(s, from).value;
      AllMatchesUnfold(s, from);
      AllMatchesOrdered(s, m.end);
      OrderedCons(m, AllMatches(s, m.end), from, |s|);
    }
  }

  /** Every element of the `exec` sequence is a match at its own start. */
  lemma {:induction false} AllMatchesSound(s: string, from: nat, t: nat)
    requires from <= |s| && t < |AllMatches(s, from)|
    ensures var m := AllMatches(s, from)[t]; m.start <= |s| && MatchAt(s, m.start) == Some(m)
    decreases |s| - from
  {
    var m := Exec(s, from).value;
    var rest := AllMatches(s, m.end);
    AllMatchesUnfold(s, from);
    if t == 0 {
      ExecFindsMatch(s, from);
      assert AllMatches(s, from)[0] == m;
    } else {
      AllMatchesSound(s, m.end, t - 1);
      assert AllMatches(s, from)[t] == rest[t - 1];
    }
  }

  /** Every element of the `exec` sequence is a match with the longest
      capture. */
  lemma AllMatchesAreMatches(s: string, from: nat, t: nat)
    requires from <= |s| && t < |AllMatches(s, from)|
    ensures IsMatch(s, AllMatches(s, from)[t])
  {
    AllMatchesSound(s, from, t);
    MatchAtIsMatch(s, AllMatches(s, from)[t].start);
  }

  /** Every tag `exec` reports starts with `<link` and ends with `>`, and its
      href is a single line of at least five characters ending in `.jsx`. */
  lemma MatchedTagShape(s: string, m: ImportMatch)
    requires IsMatch(s, m)
    ensures m.start < m.hrefStart <= m.hrefEnd < m.end <= |s|
    ensures StartsWith(TagText(s, m), "<link") && EndsWith(TagText(s, m), ">")
    ensures EndsWith(Href(s, m), ".jsx") && |Href(s, m)| >= 5
    ensures forall c | c in Href(s, m) :: !IsLineTerminator(c)
  {
    MatchParts(s, m);
    ShapeFromParts(s, m);
  }

  lemma ShapeFromParts(s: string, m: ImportMatch)
    requires m.start + 24 <= m.hrefStart && m.hrefStart + 5 <= m.hrefEnd && m.hrefEnd + 2 <= m.end <= |s|
    requires OccursAt(s, "<link", m.start) && s[m.end - 1] == '>' && OccursAt(s, ".jsx", m.hrefEnd - 4)
    requires forall t | m.hrefStart <= t < m.hrefEnd :: !IsLineTerminator(s[t])
    ensures StartsWith(TagText(s, m), "<link") && EndsWith(TagText(s, m), ">")
    ensures EndsWith(Href(s, m), ".jsx") && |Href(s, m)| >= 5
    ensures forall c | c in Href(s, m) :: !IsLineTerminator(c)
  {
    var tag := TagText(s, m);
    assert tag[..5] == s[m.start..m.start + 5];
    assert tag[|tag| - 1] == s[m.end - 1];
    var h := Href(s, m);
    assert h[|h| - 4..] == s[m.hrefEnd - 4..m.hrefEnd];
    forall c | c in h ensures !IsLineTerminator(c) {
      var t :| 0 <= t < |h| && h[t] == c;
      assert c == s[m.hrefStart + t];
    }
  }

  /** The pieces of a match in the text itself. */
  lemma MatchParts(s: string, m: ImportMatch)
    requires IsMatch(s, m)
    ensures m.start + 24 <= m.hrefStart && m.hrefStart + 5 <= m.hrefEnd && m.hrefEnd + 2 <= m.end <= |s|
    ensures OccursAt(s, "<link", m.start) && s[m.end - 1] == '>' && OccursAt(s, ".jsx", m.hrefEnd - 4)
    ensures forall t | m.hrefStart <= t < m.hrefEnd :: !IsLineTerminator(s[t])
  {
    HeadStartsLink(s, m.start);
    TailEndsTag(s, m.hrefEnd);
  }

  lemma HeadStartsLink(s: string, i: nat)
    requires i <= |s| && HeadAt(s, i).Some?
    ensures OccursAt(s, "<link", i)
  {
  }

  lemma TailEndsTag(s: string, k: nat)
    requires k <= |s| && TailAt(s, k).Some?
    ensures s[TailAt(s, k).value - 1] == '>'
  {
    assert OccursAt(s, "\"", k);
    var j := SkipSpaces(s, k + 1);
    if OccursAt(s, "/>", j) {
      assert TailAt(s, k) == Some(j + 2);
      assert s[j + 1] == s[j..j + 2][1] == '>';
    } else {
      assert OccursAt(s, ">", j) && TailAt(s, k) == Some(j + 1);
      assert s[j] == s[j..j + 1][0] == '>';
    }
  }

  /** The character `d` places after `a`. */
  function At(s: string, a: nat, d: nat): char
    requires a + d < |s|
  {
    s[a + d]
  }

  /** `s[a..a + n]` and `t[c..c + n]` hold the same characters. */
  ghost predicate SameText(s: string, a: nat, t: string, c: nat, n: nat) {
    a + n <= |s| && c + n <= |t| && forall d | 0 <= d < n :: At(s, a, d) == At(t, c, d)
  }

  lemma SameTextAt(s: string, a: nat, t: string, c: nat, n: nat, d: nat)
    requires SameText(s, a, t, c, n) && d < n
    ensures s[a + d] == t[c + d]
  {
    assert At(s, a, d) == At(t, c, d);
  }

  lemma SameTextInside(s: string, a: nat, t: string, c: nat, n: nat, a': nat, n': nat)
    requires SameText(s, a, t, c, n) && a <= a' && a' + n' <= a + n
    ensures SameText(s, a', t, c + (a' - a), n')
  {
    var off := a' - a;
    forall d | 0 <= d < n' ensures At(s, a', d) == At(t, c + off, d) {
      assert At(s, a, off + d) == At(t, c, off + d);
    }
  }

  lemma OccursShift(s: string, a: nat, t: string, c: nat, lit: string)
    requires OccursAt(s, lit, a) && SameText(s, a, t, c, |lit|)
    ensures OccursAt(t, lit, c)
  {
    forall d | 0 <= d < |lit| ensures t[c..c + |lit|][d] == lit[d] {
      assert At(s, a, d) == At(t, c, d);
      assert s[a..a + |lit|][d] == s[a + d];
    }
  }

  /** Skipping spaces that stop inside equal text stops at the same offset. */
  lemma {:induction false} SkipShift(s: string, a: nat, t: string, c: nat, n: nat)
    requires a <= |s| && c <= |t|
    requires SameText(s, a, t, c, n) && SkipSpaces(s, a) < a + n
    ensures SkipSpaces(t, c) == c + (SkipSpaces(s, a) - a)
    decreases n
  {
    SameTextAt(s, a, t, c, n, 0);
    if s[a] == ' ' {
      SameTextInside(s, a, t, c, n, a + 1, n - 1);
      SkipShift(s, a + 1, t, c + 1, n - 1);
    }
  }

  lemma LinkShift(s: string, i: nat, t: string, c: nat, n: nat)
    requires i <= |s| && c <= |t| && LinkAt(s, i).Some? && LinkAt(s, i).value < i + n
    requires SameText(s, i, t, c, n)
    ensures LinkAt(t, c) == Some(c + (LinkAt(s, i).value - i))
  {
    SameTextInside(s, i, t, c, n, i, 5);
    OccursShift(s, i, t, c, "<link");
    SameTextInside(s, i, t, c, n, i + 5, n - 5);
    SkipShift(s, i + 5, t, c + 5, n - 5);
  }

  lemma RelShift(s: string, a: nat, t: string, c: nat, n: nat)
    requires a <= |s| && c <= |t| && RelAt(s, a).Some? && RelAt(s, a).value < a + n
    requires SameText(s, a, t, c, n)
    ensures RelAt(t, c) == Some(c + (RelAt(s, a).value - a))
  {
    SameTextInside(s, a, t, c, n, a, 12);
    OccursShift(s, a, t, c, "rel=\"import\"");
    SameTextInside(s, a, t, c, n, a + 12, n - 12);
    SkipShift(s, a + 12, t, c + 12, n - 12);
  }

  /** The head of the pattern depends only on the text it spans. */
  lemma HeadShift(s: string, i: nat, t: string, c: nat)
    requires i <= |s| && c <= |t| && HeadAt(s, i).Some?
    requires SameText(s, i, t, c, HeadAt(s, i).value - i)
    ensures HeadAt(t, c) == Some(c + (HeadAt(s, i).value - i))
  {
    var q := HeadAt(s, i).value;
    var n := q - i;
    var a := LinkAt(s, i).value;
    var b := RelAt(s, a).value;
    assert i + 6 <= a && a + 12 <= b && OccursAt(s, "href=\"", b) && q == b + 6;
    var a', b' := c + (a - i), c + (b - i);
    LinkShift(s, i, t, c, n);
    SameTextInside(s, i, t, c, n, a, q - a);
    RelShift(s, a, t, a', q - a);
    SameTextInside(s, i, t, c, n, b, 6);
    OccursShift(s, b, t, b', "href=\"");
    HeadFromParts(t, c, a', b');
  }

  lemma HeadFromParts(t: string, c: nat, a: nat, b: nat)
    requires c <= a <= |t| && LinkAt(t, c) == Some(a) && RelAt(t, a) == Some(b) && OccursAt(t, "href=\"", b)
    ensures HeadAt(t, c) == Some(b + 6)
  {
  }

  /** The tail of the pattern depends only on the text it spans. */
  lemma TailShift(s: string, k: nat, t: string, c: nat)
    requires k <= |s| && c <= |t| && TailAt(s, k).Some?
    requires SameText(s, k, t, c, TailAt(s, k).value - k)
    ensures TailAt(t, c) == Some(c + (TailAt(s, k).value - k))
  {
    var e := TailAt(s, k).value;
    var n := e - k;
    SameTextInside(s, k, t, c, n, k, 1);
    OccursShift(s, k, t, c, "\"");
    var j := SkipSpaces(s, k + 1);
    SameTextInside(s, k, t, c, n, k + 1, n - 1);
    SkipShift(s, k + 1, t, c + 1, n - 1);
    var j' := c + (j - k);
    assert OccursAt(t, "\"", c) && SkipSpaces(t, c + 1) == j';
    if OccursAt(s, "/>", j) {
      SameTextInside(s, k, t, c, n, j, 2);
      OccursShift(s, j, t, j', "/>");
      assert TailAt(t, c) == Some(j' + 2);
    } else {
      SameTextInside(s, k, t, c, n, j, 1);
      OccursShift(s, j, t, j', ">");
      SameTextAt(s, k, t, c, n, j - k);
      assert t[j'] == s[j] == s[j..j + 1][0] == '>';
      FirstCharDiffers(t, "/>", j');
      assert TailAt(t, c) == Some(j' + 1);
    }
  }

  lemma FirstCharDiffers(t: string, sub: string, i: nat)
    requires i < |t| && |sub| > 0 && t[i] != sub[0]
    ensures !OccursAt(t, sub, i)
  {
    if i + |sub| <= |t| {
      assert t[i..i + |sub|][0] == t[i];
    }
  }

  /** The capture part depends only on the text it spans. */
  lemma CaptureShift(s: string, q: nat, k: nat, t: string, c: nat)
    requires CaptureOk(s, q, k) && SameText(s, q, t, c, k - q)
    ensures CaptureOk(t, c, c + (k - q))
  {
    SameTextInside(s, q, t, c, k - q, k - 4, 4);
    OccursShift(s, k - 4, t, c + (k - 4 - q), ".jsx");
    forall u | c <= u < c + (k - q) ensures !IsLineTerminator(t[u]) {
      SameTextAt(s, q, t, c, k - q, u - c);
    }
  }

  /** A candidate capture end on the line makes the greedy search succeed. */
  lemma GreedyFinds(t: string, q: nat, k: nat)
    requires q <= |t| && Candidate(t, q, k)
    ensures GreedyEnd(t, q, LineEnd(t, q)).Some?
  {
    var e := LineEnd(t, q);
    LineEndStops(t, q);
    if e < k {
      assert false;
    }
    GreedyEndLargest(t, q, e);
  }

  /** The capture carries over from a larger region of equal text. */
  lemma CaptureShiftIn(s: string, a: nat, t: string, c: nat, n: nat, q: nat, k: nat)
    requires SameText(s, a, t, c, n) && a <= q && k <= a + n && CaptureOk(s, q, k)
    ensures CaptureOk(t, c + (q - a), c + (k - a))
  {
    SameTextInside(s, a, t, c, n, q, k - q);
    CaptureShift(s, q, k, t, c + (q - a));
  }

  /** The tail carries over from a larger region of equal text. */
  lemma TailShiftIn(s: string, a: nat, t: string, c: nat, n: nat, k: nat)
    requires SameText(s, a, t, c, n) && a <= k <= |s| && TailAt(s, k).Some? && TailAt(s, k).value <= a + n
    ensures TailAt(t, c + (k - a)).Some?
  {
    SameTextInside(s, a, t, c, n, k, TailAt(s, k).value - k);
    TailShift(s, k, t, c + (k - a));
  }

  /** The head carries over from a larger region of equal text. */
  lemma HeadShiftIn(s: string, a: nat, t: string, c: nat, n: nat)
    requires SameText(s, a, t, c, n) && HeadAt(s, a).Some? && HeadAt(s, a).value <= a + n
    ensures HeadAt(t, c) == Some(c + (HeadAt(s, a).value - a))
  {
    SameTextInside(s, a, t, c, n, a, HeadAt(s, a).value - a);
    HeadShift(s, a, t, c);
  }

  /** The three parts of a match carry over to a copy of the matched text,
      so a match starts at the copy too. */
  lemma PartsShift(s: string, i: nat, q: nat, k: nat, e: nat, t: string, c: nat)
    requires i <= |s| && c <= |t|
    requires HeadAt(s, i) == Some(q) && Candidate(s, q, k) && TailAt(s, k) == Some(e)
    requires SameText(s, i, t, c, e - i)
    ensures MatchAt(t, c).Some?
  {
    assert i + 24 <= q && q + 5 <= k && e <= |s| && TailAt(s, k).value == e;
    assert c + (e - i) <= |t|;
    var q', k' := c + (q - i), c + (k - i);
    assert q' <= k' <= |t|;
    assert TailAt(t, k').Some? by {
      TailShiftIn(s, i, t, c, e - i, k);
    }
    assert HeadAt(t, c) == Some(q') by {
      HeadShiftIn(s, i, t, c, e - i);
    }
    assert CaptureOk(t, q', k') by {
      CaptureShiftIn(s, i, t, c, e - i, q, k);
    }
    MatchFromParts(t, c, q', k');
  }

  /** A head followed by a candidate capture end is a match. */
  lemma MatchFromParts(t: string, c: nat, q: nat, k: nat)
    requires c <= |t| && HeadAt(t, c) == Some(q) && Candidate(t, q, k)
    ensures MatchAt(t, c).Some?
  {
    GreedyFinds(t, q, k);
  }

  /** The tag of the first match does not occur anywhere earlier in the text,
      so replacing its first occurrence replaces the matched tag itself. */
  lemma FirstMatchIsFirstOccurrence(s: string)
    requires AllMatches(s, 0) != []
    ensures var m := AllMatches(s, 0)[0];
      forall j: nat | j < m.start :: !OccursAt(s, TagText(s, m), j)
  {
    var m := AllMatches(s, 0)[0];
    assert Exec(s, 0).Some?;
    AllMatchesUnfold(s, 0);
    ExecIsLeftmost(s, 0);
    AllMatchesAreMatches(s, 0, 0);
    forall j: nat | j < m.start ensures !OccursAt(s, TagText(s, m), j) {
      if OccursAt(s, TagText(s, m), j) {
        CopyOfTagMatches(s, m.start, m.hrefStart, m.hrefEnd, m.end, j);
        assert false;
      }
    }
  }

  /** A copy of a matched tag elsewhere in the text is itself a match start
      (possibly with a longer capture, the capture being greedy). */
  lemma CopyOfTagMatches(s: string, i: nat, q: nat, k: nat, e: nat, j: nat)
    requires i <= |s| && i <= e
    requires HeadAt(s, i) == Some(q) && Candidate(s, q, k) && TailAt(s, k) == Some(e)
    requires OccursAt(s, s[i..e], j)
    ensures MatchAt(s, j).Some?
  {
    forall d | 0 <= d < e - i ensures At(s, i, d) == At(s, j, d) {
      assert s[j..j + (e - i)][d] == s[i..e][d];
    }
    PartsShift(s, i, q, k, e, s, j);
  }
}
