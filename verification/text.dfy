/**
 * Characters and strings as the shortening code sees them: the whitespace class shared by
 * `\s`, `String.prototype.trim` and Python's `str.split()` / `str.strip()`, ASCII word
 * characters for `\b`, ASCII lower-casing for case-insensitive matching, and the
 * split / join / collapse operations the rewrites are built from.
 */
module Text {

  /** Whitespace: space, tab, line feed, carriage return, vertical tab, form feed. */
  predicate IsSpace(c: char) {
    c == ' ' || c == '\t' || c == '\n' || c == '\r' || c == '\U{B}' || c == '\U{C}'
  }

  predicate IsDigit(c: char) {
    '0' <= c <= '9'
  }

  predicate IsLetter(c: char) {
    'a' <= c <= 'z' || 'A' <= c <= 'Z'
  }

  /** The class `\w`: ASCII letters, digits and underscore. */
  predicate IsWordChar(c: char) {
    IsLetter(c) || IsDigit(c) || c == '_'
  }

  /** ASCII lower-casing, the case folding of the `i` / `IGNORECASE` flags and of `toLowerCase`. */
  function Lower(c: char): char {
    if 'A' <= c <= 'Z' then (c as int + 32) as char else c
  }

  /** `s.toLowerCase()` and Python's `s.lower()`, restricted to ASCII letters. */
  function LowerStr(s: string): string {
    if s == [] then [] else [Lower(s[0])] + LowerStr(s[1..])
  }

  /** Lower-casing works character by character. */
  lemma {:induction false} LowerStrPointwise(s: string)
    ensures |LowerStr(s)| == |s|
    ensures forall k :: 0 <= k < |s| ==> LowerStr(s)[k] == Lower(s[k])
    decreases |s|
  {
    if s != [] {
      LowerStrPointwise(s[1..]);
    }
  }

  lemma {:induction false} LowerStrAppend(a: string, b: string)
    ensures LowerStr(a + b) == LowerStr(a) + LowerStr(b)
    decreases |a|
  {
    if a != [] {
      assert (a + b)[1..] == a[1..] + b;
      LowerStrAppend(a[1..], b);
    } else {
      assert a + b == b;
    }
  }

  predicate AllSpace(s: string) {
    forall k :: 0 <= k < |s| ==> IsSpace(s[k])
  }

  predicate NoSpace(s: string) {
    forall k :: 0 <= k < |s| ==> !IsSpace(s[k])
  }

  predicate StartsWs(s: string) {
    |s| > 0 && IsSpace(s[0])
  }

  predicate EndsWs(s: string) {
    |s| > 0 && IsSpace(s[|s| - 1])
  }

  /** Neither end of `s` is whitespace (the empty string qualifies). */
  predicate NoEdgeSpace(s: string) {
    !StartsWs(s) && !EndsWs(s)
  }

  /** Length of the longest all-whitespace prefix. */
  function SpacePrefixLen(s: string): (n: nat)
    ensures n <= |s|
    ensures AllSpace(s[..n])
    ensures n < |s| ==> !IsSpace(s[n])
  {
    if s == [] || !IsSpace(s[0]) then 0 else 1 + SpacePrefixLen(s[1..])
  }

  /** Length of the longest whitespace-free prefix. */
  function NonSpacePrefixLen(s: string): (n: nat)
    ensures n <= |s|
    ensures NoSpace(s[..n])
    ensures n < |s| ==> IsSpace(s[n])
  {
    if s == [] || IsSpace(s[0]) then 0 else 1 + NonSpacePrefixLen(s[1..])
  }

  /** Length of the longest all-whitespace suffix. */
  function SpaceSuffixLen(s: string): (n: nat)
    ensures n <= |s|
    ensures forall k :: |s| - n <= k < |s| ==> IsSpace(s[k])
    ensures n < |s| ==> !IsSpace(s[|s| - n - 1])
  {
    if s == [] || !IsSpace(s[|s| - 1]) then 0 else 1 + SpaceSuffixLen(s[..|s| - 1])
  }

  lemma {:induction false} SpaceSuffixAllSpace(s: string)
    ensures AllSpace(s[|s| - SpaceSuffixLen(s)..])
  {
    var lo := |s| - SpaceSuffixLen(s);
    forall j | 0 <= j < |s| - lo ensures IsSpace(s[lo..][j]) {
      assert s[lo..][j] == s[lo + j];
    }
  }

  /**
   * `String.prototype.trim` and Python's `str.strip()`: the text with every leading and
   * trailing whitespace character removed.
   */
  function Trim(s: string): (r: string)
    ensures NoEdgeSpace(r)
    ensures exists a, b :: s == a + r + b && AllSpace(a) && AllSpace(b)
  {
    var lo := SpacePrefixLen(s);
    var hi := |s[lo..]| - SpaceSuffixLen(s[lo..]);
    TrimPieces(s, lo, hi);
    s[lo..][..hi]
  }

  /** The pieces `Trim` cuts `s` into: leading whitespace, the kept middle, trailing whitespace. */
  lemma {:induction false} TrimPieces(s: string, lo: nat, hi: nat)
    requires lo == SpacePrefixLen(s) && hi == |s[lo..]| - SpaceSuffixLen(s[lo..])
    ensures hi <= |s[lo..]| && NoEdgeSpace(s[lo..][..hi])
    ensures s == s[..lo] + s[lo..][..hi] + s[lo..][hi..]
    ensures AllSpace(s[..lo]) && AllSpace(s[lo..][hi..])
  {
    var t := s[lo..];
    assert AllSpace(t[hi..]) by {
      SpaceSuffixAllSpace(t);
    }
    assert NoEdgeSpace(t[..hi]) by {
      if hi > 0 {
        assert t[..hi][0] == s[lo];
        assert t[..hi][hi - 1] == t[|t| - SpaceSuffixLen(t) - 1];
      }
    }
    assert s == s[..lo] + t by {
      SkipSpaceSplit(s);
    }
    SplitTwice(s, s[..lo], t, hi);
  }

  lemma {:induction false} SplitTwice(s: string, a: string, t: string, hi: nat)
    requires s == a + t && hi <= |t|
    ensures s == a + t[..hi] + t[hi..]
  {
    assert t == t[..hi] + t[hi..];
  }

  /** `Trim` only removes characters. */
  lemma {:induction false} TrimChars(s: string, x: char)
    requires x in Trim(s)
    ensures x in s
  {
    var a, b :| s == a + Trim(s) + b && AllSpace(a) && AllSpace(b);
    var i :| 0 <= i < |Trim(s)| && Trim(s)[i] == x;
    assert s[|a| + i] == x;
  }

  /** Surrounding whitespace is exactly what `Trim` removes: it is determined by its two ensures. */
  lemma {:induction false} TrimUnique(a: string, r: string, b: string)
    requires AllSpace(a) && AllSpace(b) && NoEdgeSpace(r)
    ensures Trim(a + r + b) == r
  {
    var s := a + r + b;
    if r == [] {
      assert AllSpace(s) by {
        forall k | 0 <= k < |s| ensures IsSpace(s[k]) {
          if k < |a| { assert s[k] == a[k]; } else { assert s[k] == b[k - |a|]; }
        }
      }
      AllSpaceTrim(s);
    } else {
      var lo := SpacePrefixLen(s);
      SpacePrefixOf(a, r + b);
      assert s == a + (r + b);
      assert lo == |a|;
      var t := s[lo..];
      assert t == r + b;
      SpaceSuffixOf(r, b);
      assert SpaceSuffixLen(t) == |b|;
      assert t[..|t| - |b|] == r;
    }
  }

  lemma {:induction false} AllSpaceTrim(s: string)
    requires AllSpace(s)
    ensures Trim(s) == []
    decreases |s|
  {
    if s != [] {
      AllSpaceTrim(s[1..]);
      assert s[1..][SpacePrefixLen(s[1..])..] == s[SpacePrefixLen(s)..];
    }
  }

  lemma {:induction false} SpacePrefixOf(a: string, t: string)
    requires AllSpace(a) && !StartsWs(t)
    ensures SpacePrefixLen(a + t) == |a|
    decreases |a|
  {
    if a == [] {
      assert a + t == t;
    } else {
      assert (a + t)[1..] == a[1..] + t;
      SpacePrefixOf(a[1..], t);
    }
  }

  lemma {:induction false} SpaceSuffixOf(r: string, b: string)
    requires AllSpace(b) && !EndsWs(r) && r != []
    ensures SpaceSuffixLen(r + b) == |b|
    decreases |b|
  {
    if b == [] {
      assert r + b == r;
    } else {
      assert (r + b)[..|r + b| - 1] == r + b[..|b| - 1];
      SpaceSuffixOf(r, b[..|b| - 1]);
    }
  }

  /** Each line stripped, as `[line.strip() for line in lines]`. */
  function TrimAll(lines: seq<string>): (r: seq<string>)
    ensures |r| == |lines|
    ensures forall k :: 0 <= k < |lines| ==> r[k] == Trim(lines[k])
  {
    if lines == [] then [] else [Trim(lines[0])] + TrimAll(lines[1..])
  }

  /** `s` without its leading whitespace. */
  function SkipSpace(s: string): (r: string)
    ensures |r| <= |s|
  {
    s[SpacePrefixLen(s)..]
  }

  lemma {:induction false} SkipSpaceSplit(s: string)
    ensures AllSpace(s[..SpacePrefixLen(s)]) && s == s[..SpacePrefixLen(s)] + SkipSpace(s)
  {
  }

  lemma {:induction false} SkipSpaceOf(a: string, t: string)
    requires AllSpace(a) && !StartsWs(t)
    ensures SkipSpace(a + t) == t
  {
    SpacePrefixOf(a, t);
    assert (a + t)[|a|..] == t;
  }

  // ---------------------------------------------------------------------------------------
  // Whitespace runs and JavaScript's split(/\s+/)
  // ---------------------------------------------------------------------------------------

  /** Number of maximal runs of whitespace in `s`. */
  function Runs(s: string): nat {
    if s == [] then 0
    else Runs(s[1..]) + (if IsSpace(s[0]) && !StartsWs(s[1..]) then 1 else 0)
  }

  /**
   * JavaScript's `s.split(/\s+/)`: the pieces between whitespace runs, keeping the empty
   * piece before a leading run and after a trailing one (`"".split(/\s+/)` is `[""]`).
   */
  function JsSplitWs(s: string): (r: seq<string>)
    ensures |r| >= 1
    ensures forall k :: 0 <= k < |r| ==> NoSpace(r[k])
    decreases |s|
  {
    var n := NonSpacePrefixLen(s);
    if n == |s| then [s]
    else
      var m := SpacePrefixLen(s[n..]);
      [s[..n]] + JsSplitWs(s[n..][m..])
  }

  /** A whitespace-free prefix neither adds a run nor joins one. */
  lemma {:induction false} RunsNoSpacePrefix(x: string, y: string)
    requires NoSpace(x)
    ensures Runs(x + y) == Runs(y)
    decreases |x|
  {
    if x != [] {
      assert (x + y)[1..] == x[1..] + y;
      RunsNoSpacePrefix(x[1..], y);
      if x[1..] == [] {
        assert x[1..] + y == y;
      }
    } else {
      assert x + y == y;
    }
  }

  /** A non-empty whitespace prefix counts as one run, merged with a leading run of `y`. */
  lemma {:induction false} RunsSpacePrefix(x: string, y: string)
    requires |x| > 0 && AllSpace(x)
    ensures Runs(x + y) == Runs([' '] + y)
    decreases |x|
  {
    assert (x + y)[1..] == x[1..] + y;
    assert ([' '] + y)[1..] == y;
    if |x| > 1 {
      RunsSpacePrefix(x[1..], y);
      assert StartsWs(x[1..] + y);
    } else {
      assert x[1..] + y == y;
    }
  }

  /** Concatenation never loses a run of either part. */
  lemma {:induction false} RunsAppend(x: string, y: string)
    ensures Runs(x + y) >= Runs(x)
    ensures Runs(x + y) >= Runs(y)
    decreases |x|
  {
    if x == [] {
      assert x + y == y;
    } else {
      assert (x + y)[1..] == x[1..] + y;
      RunsAppend(x[1..], y);
      if x[1..] == [] && IsSpace(x[0]) && StartsWs(y) {
        RunsStartPositive(y);
      }
    }
  }

  lemma {:induction false} RunsStartPositive(y: string)
    requires StartsWs(y)
    ensures Runs(y) >= 1
    decreases |y|
  {
    if StartsWs(y[1..]) {
      RunsStartPositive(y[1..]);
    }
  }

  /** A space in front of text that does not start with whitespace opens one more run. */
  lemma {:induction false} RunsSpaceCons(z: string)
    requires !StartsWs(z)
    ensures Runs([' '] + z) == Runs(z) + 1
  {
    assert ([' '] + z)[1..] == z;
  }

  /** Trimming loses at least the run that a space in front would open. */
  lemma {:induction false} TrimRuns(y: string)
    ensures Runs(Trim(y)) + 1 <= Runs([' '] + y)
  {
    var t := Trim(y);
    var a, b :| y == a + t + b && AllSpace(a) && AllSpace(b);
    SurroundedRuns(a, t, b);
  }

  lemma {:induction false} SurroundedRuns(a: string, t: string, b: string)
    requires AllSpace(a) && AllSpace(b) && !StartsWs(t)
    ensures Runs(t) + 1 <= Runs([' '] + (a + t + b))
  {
    assert [' '] + (a + t + b) == ([' '] + a) + (t + b);
    RunsSpacePrefix([' '] + a, t + b);
    if t == [] {
      assert t + b == b;
      RunsStartPositive([' '] + b);
    } else {
      RunsSpaceCons(t + b);
      RunsAppend(t, b);
    }
  }

  /**
   * `x` has no more whitespace runs than `y`, also when both follow a space: the bound a
   * rewrite that never adds whitespace keeps.
   */
  predicate RunsWithin(x: string, y: string) {
    Runs(x) <= Runs(y) && Runs([' '] + x) <= Runs([' '] + y)
  }

  /** `split(/\s+/)` yields one more piece than there are whitespace runs. */
  lemma {:induction false} JsSplitWsCount(s: string)
    ensures |JsSplitWs(s)| == Runs(s) + 1
    decreases |s|
  {
    var n := NonSpacePrefixLen(s);
    if n == |s| {
      assert s + [] == s;
      RunsNoSpacePrefix(s, []);
    } else {
      var m := SpacePrefixLen(s[n..]);
      var rest := s[n..][m..];
      JsSplitWsCount(rest);
      SplitPieceCount(s, n, m, rest);
      RunsOfPiece(s, n, m, rest);
    }
  }

  /** Splitting off the first piece and the whitespace after it leaves one piece fewer. */
  lemma {:induction false} SplitPieceCount(s: string, n: nat, m: nat, rest: string)
    requires n == NonSpacePrefixLen(s) && n < |s|
    requires m == SpacePrefixLen(s[n..]) && rest == s[n..][m..]
    ensures |JsSplitWs(s)| == |JsSplitWs(rest)| + 1
  {
  }

  /** The first word and the whitespace run after it account for one run. */
  lemma {:induction false} RunsOfPiece(s: string, n: nat, m: nat, rest: string)
    requires n == NonSpacePrefixLen(s) && n < |s|
    requires m == SpacePrefixLen(s[n..]) && rest == s[n..][m..]
    ensures Runs(s) == Runs(rest) + 1
  {
    assert s[n..][0] == s[n];
    assert s == s[..n] + (s[n..][..m] + rest);
    RunsNoSpacePrefix(s[..n], s[n..][..m] + rest);
    RunsSpacePrefix(s[n..][..m], rest);
    RunsSpaceCons(rest);
  }

  // ---------------------------------------------------------------------------------------
  // Python's str.split(), ' '.join(...) and the collapse of whitespace
  // ---------------------------------------------------------------------------------------

  /** Python's `s.split()`: the maximal whitespace-free pieces, in order. */
  function Words(s: string): (ws: seq<string>)
    ensures forall k :: 0 <= k < |ws| ==> |ws[k]| > 0 && NoSpace(ws[k])
    decreases |s|
  {
    var m := SpacePrefixLen(s);
    if m == |s| then []
    else
      var t := s[m..];
      var n := NonSpacePrefixLen(t);
      [t[..n]] + Words(t[n..])
  }

  /** `sep.join(parts)` in Python, `parts.join(sep)` in JavaScript. */
  function Join(sep: string, parts: seq<string>): string {
    if parts == [] then []
    else if |parts| == 1 then parts[0]
    else parts[0] + sep + Join(sep, parts[1..])
  }

  /** Python's `' '.join(s.split())`. */
  function Collapse(s: string): string {
    Join(" ", Words(s))
  }

  /** Two whitespace characters side by side at `i`. */
  predicate DoubleSpaceAt(s: string, i: nat)
    requires i + 1 < |s|
  {
    IsSpace(s[i]) && IsSpace(s[i + 1])
  }

  /**
   * Normalised whitespace: no whitespace at either end, no whitespace other than ' ', and no
   * two whitespace characters in a row.
   */
  predicate Collapsed(s: string) {
    && NoEdgeSpace(s)
    && (forall k :: 0 <= k < |s| && IsSpace(s[k]) ==> s[k] == ' ')
    && (forall k :: 0 <= k < |s| - 1 ==> !DoubleSpaceAt(s, k))
  }

  /** A string with no whitespace at all has no words exactly when it is empty, and is its own only word otherwise. */
  lemma {:induction false} WordsOfWord(w: string)
    requires |w| > 0 && NoSpace(w)
    ensures Words(w) == [w]
  {
    assert SpacePrefixLen(w) == 0;
    NonSpacePrefixOf(w, []);
    assert w + [] == w;
    assert w[..|w|] == w && w[|w|..] == [];
    assert Words(w) == [w] + Words([]);
  }

  /** Leading whitespace does not change the words. */
  lemma {:induction false} WordsSpacePrefix(a: string, t: string)
    requires AllSpace(a) && !StartsWs(t)
    ensures Words(a + t) == Words(t)
  {
    SpacePrefixOf(a, t);
    SpacePrefixOf([], t);
    assert (a + t)[|a|..] == t;
    assert [] + t == t;
  }

  /** `Words` recovers the parts of a single-space join: `split()` undoes `' '.join`. */
  lemma {:induction false} WordsOfJoin(parts: seq<string>)
    requires forall k :: 0 <= k < |parts| ==> |parts[k]| > 0 && NoSpace(parts[k])
    ensures Words(Join(" ", parts)) == parts
    decreases |parts|
  {
    if parts == [] {
    } else if |parts| == 1 {
      WordsOfWord(parts[0]);
    } else {
      var w := parts[0];
      var rest := Join(" ", parts[1..]);
      WordsOfJoin(parts[1..]);
      var s := w + " " + rest;
      assert s == Join(" ", parts);
      JoinStartsNonSpace(parts[1..]);
      assert SpacePrefixLen(s) == 0 by {
        assert s[0] == w[0];
      }
      NonSpacePrefixOf(w, " " + rest);
      assert s == w + (" " + rest);
      assert s[|w|..] == " " + rest;
      WordsSpacePrefix(" ", rest);
    }
  }

  lemma {:induction false} JoinStartsNonSpace(parts: seq<string>)
    requires |parts| > 0
    requires forall k :: 0 <= k < |parts| ==> |parts[k]| > 0 && NoSpace(parts[k])
    ensures |Join(" ", parts)| > 0 && !IsSpace(Join(" ", parts)[0])
  {
    if |parts| > 1 {
      assert Join(" ", parts)[0] == parts[0][0];
    }
  }

  lemma {:induction false} NonSpacePrefixOf(w: string, t: string)
    requires NoSpace(w) && (t == [] || IsSpace(t[0]))
    ensures NonSpacePrefixLen(w + t) == |w|
    decreases |w|
  {
    if w == [] {
      assert w + t == t;
    } else {
      assert (w + t)[1..] == w[1..] + t;
      NonSpacePrefixOf(w[1..], t);
    }
  }

  /** A single-space join of non-empty, whitespace-free parts is normalised. */
  lemma {:induction false} JoinCollapsed(parts: seq<string>)
    requires forall k :: 0 <= k < |parts| ==> |parts[k]| > 0 && NoSpace(parts[k])
    ensures Collapsed(Join(" ", parts))
    decreases |parts|
  {
    if |parts| > 1 {
      var w := parts[0];
      var rest := Join(" ", parts[1..]);
      JoinCollapsed(parts[1..]);
      JoinStartsNonSpace(parts[1..]);
      var s := w + " " + rest;
      assert s == Join(" ", parts);
      assert s[0] == w[0];
      assert s[|s| - 1] == rest[|rest| - 1];
      forall k | 0 <= k < |s| && IsSpace(s[k]) ensures s[k] == ' ' {
        if k > |w| { assert s[k] == rest[k - |w| - 1]; }
      }
      forall k | 0 <= k < |s| - 1 ensures !DoubleSpaceAt(s, k) {
        if k < |w| - 1 {
          assert s[k] == w[k];
        } else if k == |w| - 1 {
          assert s[k] == w[k];
        } else if k == |w| {
          assert s[k + 1] == rest[0];
        } else {
          assert s[k] == rest[k - |w| - 1] && s[k + 1] == rest[k - |w|];
          assert !DoubleSpaceAt(rest, k - |w| - 1);
        }
      }
    }
  }

  /** `Collapse` normalises whitespace and keeps the words: a round trip through `split()`. */
  lemma {:induction false} CollapseSpec(s: string)
    ensures Collapsed(Collapse(s))
    ensures Words(Collapse(s)) == Words(s)
  {
    JoinCollapsed(Words(s));
    WordsOfJoin(Words(s));
  }

  /** Collapsing is idempotent. */
  lemma {:induction false} CollapseIdempotent(s: string)
    ensures Collapse(Collapse(s)) == Collapse(s)
  {
    CollapseSpec(s);
  }

  /** Normalised text is exactly the text that `Collapse` leaves unchanged. */
  lemma {:induction false} CollapseFixpoint(s: string)
    ensures Collapse(s) == s <==> Collapsed(s)
  {
    CollapseSpec(s);
    if Collapsed(s) {
      CollapseOfCollapsed(s);
    }
  }

  lemma {:induction false} CollapseOfCollapsed(s: string)
    requires Collapsed(s)
    ensures Collapse(s) == s
    decreases |s|
  {
    if s != [] {
      var n := NonSpacePrefixLen(s);
      if n == |s| {
        assert s[..n] == s;
        WordsOfWord(s);
      } else {
        CollapsedTail(s, n);
        CollapseOfCollapsed(s[n + 1..]);
        CollapseStep(s, n);
      }
    }
  }

  lemma {:induction false} CollapseStep(s: string, n: nat)
    requires !StartsWs(s) && n == NonSpacePrefixLen(s) && n + 1 < |s| && s[n] == ' '
    requires s[n + 1..] != [] && !StartsWs(s[n + 1..])
    requires Collapse(s[n + 1..]) == s[n + 1..]
    ensures Collapse(s) == s
  {
    WordsAfterFirst(s, n);
    JoinAfterWord(s[..n], Words(s[n + 1..]), s[n + 1..]);
    SplitAtSpace(s, n);
  }

  lemma {:induction false} JoinAfterWord(w: string, ws: seq<string>, rest: string)
    requires rest != [] && Join(" ", ws) == rest
    ensures Join(" ", [w] + ws) == w + " " + rest
  {
    assert ws != [];
    assert ([w] + ws)[1..] == ws;
  }

  lemma {:induction false} SplitAtSpace(s: string, n: nat)
    requires n < |s| && s[n] == ' '
    ensures s == s[..n] + " " + s[n + 1..]
  {
  }

  /** The first word of normalised text is followed by one space and more normalised text. */
  lemma {:induction false} CollapsedTail(s: string, n: nat)
    requires Collapsed(s) && n == NonSpacePrefixLen(s) && n < |s|
    ensures n > 0 && n + 1 < |s| && s[n] == ' '
    ensures Collapsed(s[n + 1..]) && s[n + 1..] != []
  {
    assert n + 1 < |s| by { assert !EndsWs(s); }
    assert !DoubleSpaceAt(s, n);
    CollapsedSuffix(s, n + 1);
  }

  /** A suffix of collapsed text that starts after a space is collapsed too. */
  lemma {:induction false} CollapsedSuffix(s: string, j: nat)
    requires Collapsed(s) && 0 < j < |s| && s[j - 1] == ' '
    ensures Collapsed(s[j..])
  {
    var rest := s[j..];
    assert !DoubleSpaceAt(s, j - 1);
    assert rest[0] == s[j];
    assert rest[|rest| - 1] == s[|s| - 1];
    SuffixSpacesPlain(s, j);
    SuffixNoDouble(s, j);
  }

  lemma {:induction false} SuffixSpacesPlain(s: string, j: nat)
    requires j <= |s| && forall k :: 0 <= k < |s| && IsSpace(s[k]) ==> s[k] == ' '
    ensures forall k :: 0 <= k < |s[j..]| && IsSpace(s[j..][k]) ==> s[j..][k] == ' '
  {
    forall k | 0 <= k < |s[j..]| && IsSpace(s[j..][k]) ensures s[j..][k] == ' ' {
      assert s[j..][k] == s[k + j];
    }
  }

  lemma {:induction false} SuffixNoDouble(s: string, j: nat)
    requires j <= |s| && forall k :: 0 <= k < |s| - 1 ==> !DoubleSpaceAt(s, k)
    ensures forall k :: 0 <= k < |s[j..]| - 1 ==> !DoubleSpaceAt(s[j..], k)
  {
    var rest := s[j..];
    forall k | 0 <= k < |rest| - 1 ensures !DoubleSpaceAt(rest, k) {
      assert rest[k] == s[k + j] && rest[k + 1] == s[k + j + 1];
      assert !DoubleSpaceAt(s, k + j);
    }
  }

  lemma {:induction false} WordsAfterFirst(s: string, n: nat)
    requires !StartsWs(s) && n == NonSpacePrefixLen(s) && n + 1 < |s| && s[n] == ' '
    requires !StartsWs(s[n + 1..])
    ensures Words(s) == [s[..n]] + Words(s[n + 1..])
  {
    assert SpacePrefixLen(s) == 0;
    assert s[0..] == s;
    assert s[n..] == " " + s[n + 1..];
    WordsSpacePrefix(" ", s[n + 1..]);
  }

  /** A whitespace prefix lengthens by what is appended only when it covers the whole text. */
  lemma {:induction false} SpacePrefixAppend(a: string, b: string)
    ensures AllSpace(a) ==> SpacePrefixLen(a + b) == |a| + SpacePrefixLen(b)
    ensures SpacePrefixLen(a) < |a| ==> SpacePrefixLen(a + b) == SpacePrefixLen(a)
    decreases |a|
  {
    if a == [] {
      assert a + b == b;
    } else {
      assert (a + b)[1..] == a[1..] + b;
      SpacePrefixAppend(a[1..], b);
    }
  }

  /** A word is not lengthened by text that starts at whitespace. */
  lemma {:induction false} NonSpacePrefixAppend(t: string, b: string)
    requires NonSpacePrefixLen(t) < |t| || b == [] || StartsWs(b)
    ensures NonSpacePrefixLen(t + b) == NonSpacePrefixLen(t)
    decreases |t|
  {
    if t == [] {
      assert t + b == b;
    } else {
      assert (t + b)[1..] == t[1..] + b;
      if !IsSpace(t[0]) {
        NonSpacePrefixAppend(t[1..], b);
      }
    }
  }

  /** The words of a text are the words of what follows its leading whitespace. */
  lemma {:induction false} WordsSkip(s: string, u: string)
    requires u == s[SpacePrefixLen(s)..]
    ensures Words(s) == Words(u)
  {
    assert SpacePrefixLen(u) == 0;
    assert u[0..] == u;
  }

  /** Leading whitespace does not change the words, whatever follows it. */
  lemma {:induction false} WordsLeadSpace(a: string, b: string)
    requires AllSpace(a)
    ensures Words(a + b) == Words(b)
  {
    var u := b[SpacePrefixLen(b)..];
    SpacePrefixAppend(a, b);
    assert (a + b)[SpacePrefixLen(a + b)..] == u;
    WordsSkip(a + b, u);
    WordsSkip(b, u);
  }

  /** The first word of a text that starts with one, and the words after it. */
  lemma {:induction false} WordsFirst(t: string, w: string, rest: string)
    requires t != [] && !IsSpace(t[0])
    requires w == t[..NonSpacePrefixLen(t)] && rest == t[NonSpacePrefixLen(t)..]
    ensures |rest| < |t|
    ensures Words(t) == [w] + Words(rest)
  {
    assert SpacePrefixLen(t) == 0;
    assert t[0..] == t;
  }

  /** `split()` of a text cut just before whitespace is the words of the one part, then the other's. */
  lemma {:induction false} WordsAppend(a: string, b: string)
    requires b == [] || StartsWs(b)
    ensures Words(a + b) == Words(a) + Words(b)
    decreases |a|
  {
    if SpacePrefixLen(a) == |a| {
      WordsAppendSpace(a, b);
    } else {
      var t := a[SpacePrefixLen(a)..];
      WordsSkipAppend(a, b, t);
      var w, rest := WordsFirstAppend(t, b);
      WordsAppend(rest, b);
      ConsAppend(Words(a + b), Words(a), [w], Words(rest), Words(b));
    }
  }

  /** Regrouping a concatenation with a common head. */
  lemma ConsAppend<T>(l: seq<T>, r: seq<T>, x: seq<T>, y: seq<T>, z: seq<T>)
    requires l == x + (y + z) && r == x + y
    ensures l == r + z
  {
  }

  /** The all-whitespace case of `WordsAppend`: the first part has no words. */
  lemma {:induction false} WordsAppendSpace(a: string, b: string)
    requires SpacePrefixLen(a) == |a|
    ensures Words(a + b) == Words(a) + Words(b)
  {
    assert a[..|a|] == a;
    WordsLeadSpace(a, b);
    assert Words(a) == [];
  }

  /** Past the leading whitespace of a text that has a word, appending is appending to the rest. */
  lemma {:induction false} WordsSkipAppend(a: string, b: string, t: string)
    requires SpacePrefixLen(a) < |a| && t == a[SpacePrefixLen(a)..]
    ensures t != [] && !IsSpace(t[0]) && |t| <= |a|
    ensures Words(a) == Words(t) && Words(a + b) == Words(t + b)
  {
    SpacePrefixAppend(a, b);
    assert (a + b)[SpacePrefixLen(a + b)..] == t + b;
    WordsSkip(a, t);
    WordsSkip(a + b, t + b);
  }

  /** A text that starts with a word keeps that first word when text starting at whitespace is appended. */
  lemma {:induction false} WordsFirstAppend(t: string, b: string) returns (w: string, rest: string)
    requires b == [] || StartsWs(b)
    requires t != [] && !IsSpace(t[0])
    ensures |rest| < |t|
    ensures Words(t) == [w] + Words(rest) && Words(t + b) == [w] + Words(rest + b)
  {
    var n := NonSpacePrefixLen(t);
    w := t[..n];
    rest := t[n..];
    var tb := t + b;
    NonSpacePrefixAppend(t, b);
    assert tb[..n] == w by {
      assert forall k :: 0 <= k < n ==> tb[k] == t[k];
    }
    assert tb[n..] == rest + b;
    WordsFirst(t, w, rest);
    WordsFirst(tb, w, rest + b);
  }

  /** A single-space join of whitespace-free pieces, some perhaps empty, has at most one word per piece. */
  lemma {:induction false} WordsOfPieces(ps: seq<string>)
    requires forall k :: 0 <= k < |ps| ==> NoSpace(ps[k])
    ensures |Words(Join(" ", ps))| <= |ps|
    decreases |ps|
  {
    if |ps| == 1 {
      if ps[0] != [] {
        WordsOfWord(ps[0]);
      }
    } else if |ps| > 1 {
      var rest := Join(" ", ps[1..]);
      assert Join(" ", ps) == ps[0] + (" " + rest);
      WordsAppend(ps[0], " " + rest);
      WordsLeadSpace(" ", rest);
      WordsOfPieces(ps[1..]);
      if ps[0] != [] {
        WordsOfWord(ps[0]);
      }
    }
  }

  // ---------------------------------------------------------------------------------------
  // Splitting on one character, as `str.split(",")` and `data.split('\n')` do
  // ---------------------------------------------------------------------------------------

  /** `s.split(c)` for a one-character separator: `|r|` is one more than the number of `c`. */
  function SplitOn(s: string, c: char): (r: seq<string>)
    ensures |r| >= 1
    ensures forall k :: 0 <= k < |r| ==> c !in r[k]
    decreases |s|
  {
    if s == [] then [[]]
    else
      var rest := SplitOn(s[1..], c);
      if s[0] == c then [[]] + rest else [[s[0]] + rest[0]] + rest[1..]
  }

  /** Every piece of a split is made of the text's own characters. */
  lemma {:induction false} SplitOnChars(s: string, c: char, k: nat, x: char)
    requires k < |SplitOn(s, c)| && x in SplitOn(s, c)[k]
    ensures x in s
    decreases |s|
  {
    if s != [] {
      var rest := SplitOn(s[1..], c);
      if s[0] == c {
        SplitOnChars(s[1..], c, k - 1, x);
      } else if k == 0 {
        if x != s[0] {
          SplitOnChars(s[1..], c, 0, x);
        }
      } else {
        SplitOnChars(s[1..], c, k, x);
      }
    }
  }

  lemma {:induction false} JoinCons(sep: string, x: char, p: string, ps: seq<string>)
    ensures Join(sep, [[x] + p] + ps) == [x] + Join(sep, [p] + ps)
  {
    if ps != [] {
      assert ([[x] + p] + ps)[1..] == ps;
      assert ([p] + ps)[1..] == ps;
    }
  }

  /** Joining the pieces of a split with the separator gives back the text. */
  lemma {:induction false} JoinSplitOn(s: string, c: char)
    ensures Join([c], SplitOn(s, c)) == s
    decreases |s|
  {
    if s != [] {
      var rest := SplitOn(s[1..], c);
      JoinSplitOn(s[1..], c);
      if s[0] == c {
        assert ([[]] + rest)[1..] == rest;
      } else {
        JoinCons([c], s[0], rest[0], rest[1..]);
        assert [rest[0]] + rest[1..] == rest;
      }
    }
  }

  /** Splitting a join of separator-free parts gives back the parts. */
  lemma {:induction false} SplitOnJoin(parts: seq<string>, c: char)
    requires |parts| >= 1
    requires forall k :: 0 <= k < |parts| ==> c !in parts[k]
    ensures SplitOn(Join([c], parts), c) == parts
    decreases |parts|, |parts[0]|, 1
  {
    if parts[0] != [] {
      SplitJoinChar(parts, c);
    } else if |parts| > 1 {
      SplitJoinSeparator(parts, c);
    }
  }

  /** An empty first part: the text starts with the separator. */
  lemma {:induction false} SplitJoinSeparator(parts: seq<string>, c: char)
    requires |parts| > 1 && parts[0] == []
    requires forall k :: 0 <= k < |parts| ==> c !in parts[k]
    ensures SplitOn(Join([c], parts), c) == parts
    decreases |parts|, |parts[0]|, 0
  {
    var t := Join([c], parts[1..]);
    assert Join([c], parts) == [c] + t;
    assert ([c] + t)[1..] == t;
    SplitOnJoin(parts[1..], c);
    assert parts == [[]] + parts[1..];
  }

  /** A non-empty first part: the text starts with its first character. */
  lemma {:induction false} SplitJoinChar(parts: seq<string>, c: char)
    requires |parts| >= 1 && parts[0] != []
    requires forall k :: 0 <= k < |parts| ==> c !in parts[k]
    ensures SplitOn(Join([c], parts), c) == parts
    decreases |parts|, |parts[0]|, 0
  {
    var p := parts[0];
    var tail := [p[1..]] + parts[1..];
    TailSeparatorFree(parts, c);
    SplitOnJoin(tail, c);
    JoinCons([c], p[0], p[1..], parts[1..]);
    SplitJoinCharStep(parts, c, tail);
  }

  lemma {:induction false} TailSeparatorFree(parts: seq<string>, c: char)
    requires |parts| >= 1 && parts[0] != []
    requires forall k :: 0 <= k < |parts| ==> c !in parts[k]
    ensures forall k :: 0 <= k < |[parts[0][1..]] + parts[1..]| ==> c !in ([parts[0][1..]] + parts[1..])[k]
  {
    var tail := [parts[0][1..]] + parts[1..];
    forall k | 0 <= k < |tail| ensures c !in tail[k] {
      if k == 0 {
        assert forall x :: x in parts[0][1..] ==> x in parts[0];
      } else {
        assert tail[k] == parts[k];
      }
    }
  }

  lemma {:induction false} SplitJoinCharStep(parts: seq<string>, c: char, tail: seq<string>)
    requires |parts| >= 1 && parts[0] != [] && c !in parts[0]
    requires tail == [parts[0][1..]] + parts[1..]
    requires SplitOn(Join([c], tail), c) == tail
    requires Join([c], [[parts[0][0]] + parts[0][1..]] + parts[1..])
             == [parts[0][0]] + Join([c], [parts[0][1..]] + parts[1..])
    ensures SplitOn(Join([c], parts), c) == parts
  {
    var p := parts[0];
    assert p == [p[0]] + p[1..];
    assert parts == [[p[0]] + p[1..]] + parts[1..];
    var s := Join([c], parts);
    assert s[1..] == Join([c], tail);
    assert s[0] == p[0];
    assert tail[1..] == parts[1..];
  }

  /** Whether `t` occurs in `s` as a contiguous piece (Python's `t in s`). */
  predicate Contains(s: string, t: string) {
    exists i | 0 <= i <= |s| - |t| :: OccursAt(s, t, i)
  }

  predicate OccursAt(s: string, t: string, i: int) {
    0 <= i <= |s| - |t| && s[i..i + |t|] == t
  }
}
