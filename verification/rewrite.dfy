/**
 * Global search-and-replace as the shortening code uses it: JavaScript's
 * `text.replace(/\b(a1|...|an)\b/gi, rep)`, `text.replace(/\^/g, rep)` and
 * `text.replace(/\s+/g, rep)`, and Python's `re.sub(r'\b' + a + r'\b', rep, text,
 * flags=re.IGNORECASE)` and `text.replace(lit, rep)`.
 *
 * All of them scan left to right: at each position the pattern is tried; on a match the
 * replacement is emitted and scanning resumes after the matched text, otherwise the
 * character is copied. Word boundaries are decided on the text being scanned, not on the
 * output.
 */
module Rewrite {
  import opened Text
  import opened Wrappers

  /** The patterns the code replaces globally. */
  datatype Pattern =
    | WordAlt(alts: seq<string>)  // `\b(a1|a2|...)\b`, case-insensitive, alternatives tried in order
    | Exact(lit: string)          // a literal, case-sensitive, matched anywhere
    | SpaceRun                    // `\s+`
  {
    /** Every alternative and every literal is non-empty, so each match consumes text. */
    predicate Valid() {
      match this
      case WordAlt(alts) => forall k :: 0 <= k < |alts| ==> alts[k] != []
      case Exact(lit) => lit != []
      case SpaceRun => true
    }
  }

  predicate WordAt(s: string, q: int) {
    0 <= q < |s| && IsWordChar(s[q])
  }

  /** `\b` between positions `p - 1` and `p`: exactly one side is a word character. */
  predicate Boundary(s: string, p: int) {
    WordAt(s, p - 1) != WordAt(s, p)
  }

  /** `a` occurs in `s` at `i` up to ASCII case. */
  predicate FoldEqAt(s: string, i: nat, a: string)
    decreases |a|
  {
    i + |a| <= |s| && (a == [] || (Lower(s[i]) == Lower(a[0]) && FoldEqAt(s, i + 1, a[1..])))
  }

  /** Alternative `a` matches at `i`: boundary-delimited and equal up to case. */
  predicate AltMatches(s: string, i: nat, a: string) {
    FoldEqAt(s, i, a) && Boundary(s, i + |a|)
  }

  /**
   * The regex engine's choice among the alternatives at `i`: the index of the first one that
   * matches together with the closing `\b`, if any does.
   */
  function FirstAlt(s: string, i: nat, alts: seq<string>): (r: Option<nat>)
    ensures r.Some? ==> r.value < |alts| && AltMatches(s, i, alts[r.value])
    decreases |alts|
  {
    if alts == [] then None
    else if AltMatches(s, i, alts[0]) then Some(0)
    else
      match FirstAlt(s, i, alts[1..])
      case None => None
      case Some(k) => Some(k + 1)
  }

  /** The chosen alternative is the first that matches; with none chosen, none matches. */
  lemma {:induction false} FirstAltFirst(s: string, i: nat, alts: seq<string>)
    ensures FirstAlt(s, i, alts).Some? ==>
              forall k :: 0 <= k < FirstAlt(s, i, alts).value ==> !AltMatches(s, i, alts[k])
    ensures FirstAlt(s, i, alts).None? ==> forall k :: 0 <= k < |alts| ==> !AltMatches(s, i, alts[k])
    decreases |alts|
  {
    if alts != [] && !AltMatches(s, i, alts[0]) {
      FirstAltFirst(s, i, alts[1..]);
      forall k | 1 <= k < |alts| ensures alts[k] == alts[1..][k - 1] {
      }
    }
  }

  /** Length of the match of `p` starting at `i`, if there is one. */
  function MatchLen(s: string, i: nat, p: Pattern): (r: Option<nat>)
    requires p.Valid() && i < |s|
    ensures r.Some? ==> 0 < r.value <= |s| - i
  {
    match p
    case WordAlt(alts) =>
      if !Boundary(s, i) then None
      else (match FirstAlt(s, i, alts)
            case None => None
            case Some(k) => Some(|alts[k]|))
    case Exact(lit) =>
      if i + |lit| <= |s| && s[i..i + |lit|] == lit then Some(|lit|) else None
    case SpaceRun =>
      if IsSpace(s[i]) then Some(SpacePrefixLen(s[i..])) else None
  }

  /** The output for the part of `s` from `i` on. */
  function ReplaceFrom(s: string, p: Pattern, rep: string, i: nat): (r: string)
    requires p.Valid() && i <= |s|
    decreases |s| - i
  {
    if i == |s| then []
    else
      match MatchLen(s, i, p)
      case Some(n) =>
        rep + ReplaceFrom(s, p, rep, i + n)
      case None =>
        [s[i]] + ReplaceFrom(s, p, rep, i + 1)
  }

  /** `s.replace(p, rep)` with the global flag: every non-overlapping match, left to right. */
  function ReplaceAll(s: string, p: Pattern, rep: string): string
    requires p.Valid()
  {
    ReplaceFrom(s, p, rep, 0)
  }

  /** Every output character is a character of the scanned text or of the replacement. */
  lemma {:induction false} ReplaceChars(s: string, p: Pattern, rep: string, i: nat, c: char)
    requires p.Valid() && i <= |s|
    requires c in ReplaceFrom(s, p, rep, i)
    ensures c in s[i..] || c in rep
    decreases |s| - i, 1
  {
    if MatchLen(s, i, p).Some? {
      CharsAtMatch(s, p, rep, i, c);
    } else {
      CharsAtCopy(s, p, rep, i, c);
    }
  }

  lemma {:induction false} CharsAtMatch(s: string, p: Pattern, rep: string, i: nat, c: char)
    requires p.Valid() && i < |s| && MatchLen(s, i, p).Some?
    requires c in ReplaceFrom(s, p, rep, i)
    ensures c in s[i..] || c in rep
    decreases |s| - i, 0
  {
    var n := MatchLen(s, i, p).value;
    if c !in rep {
      assert c in ReplaceFrom(s, p, rep, i + n) by {
        ReplaceAtMatch(s, p, rep, i, n);
        InTail(c, rep, ReplaceFrom(s, p, rep, i + n));
      }
      ReplaceChars(s, p, rep, i + n, c);
      SuffixChars(s, i, i + n, c);
    }
  }

  lemma {:induction false} InTail(c: char, a: string, b: string)
    requires c in a + b && c !in a
    ensures c in b
  {
  }

  lemma {:induction false} CharsAtCopy(s: string, p: Pattern, rep: string, i: nat, c: char)
    requires p.Valid() && i < |s| && MatchLen(s, i, p).None?
    requires c in ReplaceFrom(s, p, rep, i)
    ensures c in s[i..] || c in rep
    decreases |s| - i, 0
  {
    ReplaceAtCopy(s, p, rep, i);
    if c != s[i] && c !in rep {
      ReplaceChars(s, p, rep, i + 1, c);
      SuffixChars(s, i, i + 1, c);
    }
  }

  lemma {:induction false} SuffixChars(s: string, i: nat, j: nat, c: char)
    requires i <= j <= |s| && c in s[j..]
    ensures c in s[i..]
  {
    assert s[i..] == s[i..j] + s[j..];
  }

  /** Text in which `p` matches nowhere from `i` on comes out unchanged. */
  lemma {:induction false} ReplaceNoMatch(s: string, p: Pattern, rep: string, i: nat)
    requires p.Valid() && i <= |s|
    requires forall j :: i <= j < |s| ==> MatchLen(s, j, p).None?
    ensures ReplaceFrom(s, p, rep, i) == s[i..]
    decreases |s| - i
  {
    if i < |s| {
      ReplaceNoMatch(s, p, rep, i + 1);
      assert s[i..] == [s[i]] + s[i + 1..];
    }
  }

  /** A whitespace-free stretch with no match inside it is copied as it is. */
  lemma {:induction false} ReplaceCopies(s: string, p: Pattern, rep: string, i: nat, n: nat)
    requires p.Valid() && i + n <= |s|
    requires forall j :: i <= j < i + n ==> MatchLen(s, j, p).None?
    ensures ReplaceFrom(s, p, rep, i) == s[i..i + n] + ReplaceFrom(s, p, rep, i + n)
    decreases n
  {
    if n > 0 {
      ReplaceCopies(s, p, rep, i + 1, n - 1);
      ReplaceAtCopy(s, p, rep, i);
      assert s[i..i + n] == [s[i]] + s[i + 1..i + n];
      CopyRegroup(ReplaceFrom(s, p, rep, i), ReplaceFrom(s, p, rep, i + 1), [s[i]],
                  s[i + 1..i + n], s[i..i + n], ReplaceFrom(s, p, rep, i + n));
    }
  }

  lemma {:induction false} CopyRegroup(a: string, b: string, c: string, u: string, v: string, t: string)
    requires a == c + b && b == u + t && v == c + u
    ensures a == v + t
  {
  }

  /** Text equal to `a` at `i` matches it, whatever the case-folding does. */
  lemma {:induction false} FoldEqOfSlice(s: string, i: nat, a: string)
    requires i + |a| <= |s| && s[i..i + |a|] == a
    ensures FoldEqAt(s, i, a)
    decreases |a|
  {
    if a != [] {
      assert s[i] == a[0];
      assert s[i + 1..i + |a|] == a[1..];
      FoldEqOfSlice(s, i + 1, a[1..]);
    }
  }

  /** `s.replace(/c/g, rep)` with `c` not in `rep` leaves no `c` behind. */
  lemma {:induction false} ReplaceCharGone(s: string, c: char, rep: string, i: nat)
    requires c !in rep && i <= |s|
    ensures c !in ReplaceFrom(s, Exact([c]), rep, i)
    decreases |s| - i, 1
  {
    if i < |s| {
      if s[i] == c {
        CharGoneAtMatch(s, c, rep, i);
      } else {
        CharGoneAtCopy(s, c, rep, i);
      }
    }
  }

  lemma {:induction false} CharGoneAtMatch(s: string, c: char, rep: string, i: nat)
    requires c !in rep && i < |s| && s[i] == c
    ensures c !in ReplaceFrom(s, Exact([c]), rep, i)
    decreases |s| - i, 0
  {
    assert s[i..i + 1] == [c];
    ReplaceAtMatch(s, Exact([c]), rep, i, 1);
    ReplaceCharGone(s, c, rep, i + 1);
  }

  lemma {:induction false} CharGoneAtCopy(s: string, c: char, rep: string, i: nat)
    requires c !in rep && i < |s| && s[i] != c
    ensures c !in ReplaceFrom(s, Exact([c]), rep, i)
    decreases |s| - i, 0
  {
    assert s[i..i + 1] != [c];
    ReplaceAtCopy(s, Exact([c]), rep, i);
    ReplaceCharGone(s, c, rep, i + 1);
  }

  // ---------------------------------------------------------------------------------------
  // Rewriting never adds a whitespace run
  // ---------------------------------------------------------------------------------------

  /** Non-empty, with no whitespace at the start: what a trimmed phrase or table key is. */
  predicate SolidStart(a: string) {
    a != [] && !IsSpace(a[0])
  }

  lemma {:induction false} LowerKeepsSpace(c: char)
    ensures IsSpace(Lower(c)) <==> IsSpace(c)
  {
  }

  /**
   * Replacing whole-word matches of alternatives that start with a non-space character by
   * whitespace-free text never increases the number of whitespace runs, whether or not a
   * space is put in front. With the second form the result still holds after a removal
   * exposes whitespace at the front.
   */
  lemma {:induction false} ReplaceKeepsRuns(s: string, alts: seq<string>, rep: string, i: nat)
    requires i <= |s| && NoSpace(rep) && WordAlt(alts).Valid()
    requires forall k :: 0 <= k < |alts| ==> SolidStart(alts[k])
    ensures RunsWithin(ReplaceFrom(s, WordAlt(alts), rep, i), s[i..])
    decreases |s| - i, 1
  {
    if i < |s| {
      if MatchLen(s, i, WordAlt(alts)).Some? {
        KeepsRunsAtMatch(s, alts, rep, i);
      } else {
        KeepsRunsAtCopy(s, alts, rep, i);
      }
    }
  }

  lemma {:induction false} KeepsRunsAtMatch(s: string, alts: seq<string>, rep: string, i: nat)
    requires i < |s| && NoSpace(rep) && WordAlt(alts).Valid()
    requires forall k :: 0 <= k < |alts| ==> SolidStart(alts[k])
    requires MatchLen(s, i, WordAlt(alts)).Some?
    ensures RunsWithin(ReplaceFrom(s, WordAlt(alts), rep, i), s[i..])
    decreases |s| - i, 0
  {
    var p := WordAlt(alts);
    var n := MatchLen(s, i, p).value;
    ReplaceKeepsRuns(s, alts, rep, i + n);
    assert RunsWithin(ReplaceFrom(s, WordAlt(alts), rep, i + n), s[i + n..]);
    MatchStartsSolid(s, alts, i, n);
    ReplaceAtMatch(s, p, rep, i, n);
    assert s[i..][0] == s[i] && s[i..][n..] == s[i + n..];
    RunsReplaceStep(s[i..], n, rep, ReplaceFrom(s, p, rep, i + n));
  }

  lemma {:induction false} KeepsRunsAtCopy(s: string, alts: seq<string>, rep: string, i: nat)
    requires i < |s| && NoSpace(rep) && WordAlt(alts).Valid()
    requires forall k :: 0 <= k < |alts| ==> SolidStart(alts[k])
    requires MatchLen(s, i, WordAlt(alts)).None?
    ensures RunsWithin(ReplaceFrom(s, WordAlt(alts), rep, i), s[i..])
    decreases |s| - i, 0
  {
    var p := WordAlt(alts);
    ReplaceKeepsRuns(s, alts, rep, i + 1);
    assert RunsWithin(ReplaceFrom(s, WordAlt(alts), rep, i + 1), s[i + 1..]);
    ReplaceAtCopy(s, p, rep, i);
    assert s[i..] == [s[i]] + s[i + 1..];
    RunsCopyStep(s[i], s[i + 1..], ReplaceFrom(s, p, rep, i + 1));
  }

  /** Where no match starts, the character is copied and scanning moves on by one. */
  lemma {:induction false} ReplaceAtCopy(s: string, p: Pattern, rep: string, i: nat)
    requires p.Valid() && i < |s| && MatchLen(s, i, p).None?
    ensures ReplaceFrom(s, p, rep, i) == [s[i]] + ReplaceFrom(s, p, rep, i + 1)
  {
  }

  /** Copying one character in front of both texts keeps the bound. */
  lemma {:induction false} RunsCopyStep(c: char, y: string, t: string)
    requires RunsWithin(t, y)
    ensures RunsWithin([c] + t, [c] + y)
  {
    assert ([c] + t)[1..] == t;
    assert ([c] + y)[1..] == y;
    assert ([' '] + t)[1..] == t;
    assert ([' '] + y)[1..] == y;
    assert ([' '] + ([c] + t))[1..] == [c] + t;
    assert ([' '] + ([c] + y))[1..] == [c] + y;
  }

  /** Where a match of length `n` starts, the replacement is emitted and scanning skips it. */
  lemma {:induction false} ReplaceAtMatch(s: string, p: Pattern, rep: string, i: nat, n: nat)
    requires p.Valid() && i < |s| && MatchLen(s, i, p) == Some(n)
    ensures ReplaceFrom(s, p, rep, i) == rep + ReplaceFrom(s, p, rep, i + n)
  {
  }

  /** A whole-word match of an alternative with a non-space first character starts with one. */
  lemma {:induction false} MatchStartsSolid(s: string, alts: seq<string>, i: nat, n: nat)
    requires i < |s| && WordAlt(alts).Valid()
    requires forall k :: 0 <= k < |alts| ==> SolidStart(alts[k])
    requires MatchLen(s, i, WordAlt(alts)) == Some(n)
    ensures 0 < n && i + n <= |s| && !IsSpace(s[i])
  {
    var k := FirstAlt(s, i, alts).value;
    LowerKeepsSpace(s[i]);
    LowerKeepsSpace(alts[k][0]);
  }

  /** Putting whitespace-free text in place of a word-led first stretch of `x` keeps the bound. */
  lemma {:induction false} RunsReplaceStep(x: string, n: nat, rep: string, t: string)
    requires 0 < n <= |x| && !IsSpace(x[0]) && NoSpace(rep) && RunsWithin(t, x[n..])
    ensures RunsWithin(rep + t, x)
  {
    var w, y := x[..n], x[n..];
    assert x == w + y;
    RunsNoSpacePrefix(rep, t);
    RunsAppend(w, y);
    RunsSpaceCons(x);
    assert ([' '] + y)[1..] == y;
    if rep != [] {
      assert (rep + t)[0] == rep[0];
      RunsSpaceCons(rep + t);
    } else {
      assert rep + t == t;
    }
  }


  // ---------------------------------------------------------------------------------------
  // Fixed replacement tables applied entry by entry
  // ---------------------------------------------------------------------------------------

  predicate KeysNonEmpty(table: seq<(string, string)>) {
    forall k :: 0 <= k < |table| ==> table[k].0 != []
  }

  /** A key that starts with a non-space character, and a value that is a single word. */
  predicate WordEntry(e: (string, string)) {
    SolidStart(e.0) && NoSpace(e.1)
  }

  /**
   * For each `(key, value)` in table order, replace every whole-word, case-insensitive
   * occurrence of `key` by the literal `value`: the loop `for (key, value) ...: text =
   * text.replace(/\bkey\b/gi, value)`.
   */
  function ApplyTable(s: string, table: seq<(string, string)>): string
    requires KeysNonEmpty(table)
    decreases |table|
  {
    if table == [] then s
    else ApplyTable(ReplaceAll(s, WordAlt([table[0].0]), table[0].1), table[1..])
  }

  /** `key` occurs in `s` as a whole word, ignoring ASCII case. */
  predicate HasWord(s: string, key: string)
    requires key != []
  {
    exists j | 0 <= j < |s| :: MatchLen(s, j, WordAlt([key])).Some?
  }

  /** Text in which no key of the table occurs as a whole word is returned unchanged. */
  lemma {:induction false} ApplyTableIdentity(s: string, table: seq<(string, string)>)
    requires KeysNonEmpty(table)
    requires forall k :: 0 <= k < |table| ==> !HasWord(s, table[k].0)
    ensures ApplyTable(s, table) == s
    decreases |table|
  {
    if table != [] {
      ReplaceNoMatch(s, WordAlt([table[0].0]), table[0].1, 0);
      assert ReplaceAll(s, WordAlt([table[0].0]), table[0].1) == s;
      ApplyTableIdentity(s, table[1..]);
    }
  }

  /**
   * A table whose keys are trimmed and whose values contain no whitespace never adds a
   * whitespace run, so it never adds a word.
   */
  lemma {:induction false} ApplyTableKeepsRuns(s: string, table: seq<(string, string)>)
    requires KeysNonEmpty(table)
    requires forall k :: 0 <= k < |table| ==> SolidStart(table[k].0) && NoSpace(table[k].1)
    ensures Runs(ApplyTable(s, table)) <= Runs(s)
    ensures Runs([' '] + ApplyTable(s, table)) <= Runs([' '] + s)
    decreases |table|
  {
    if table != [] {
      var s' := ReplaceAll(s, WordAlt([table[0].0]), table[0].1);
      ReplaceKeepsRuns(s, [table[0].0], table[0].1, 0);
      assert s[0..] == s;
      ApplyTableKeepsRuns(s', table[1..]);
    }
  }

  /** Every character of the result comes from the text or from one of the table's values. */
  lemma {:induction false} ApplyTableChars(s: string, table: seq<(string, string)>, c: char)
    requires KeysNonEmpty(table)
    requires c in ApplyTable(s, table)
    ensures c in s || exists k :: 0 <= k < |table| && c in table[k].1
    decreases |table|
  {
    if table != [] {
      var s' := ReplaceAll(s, WordAlt([table[0].0]), table[0].1);
      ApplyTableChars(s', table[1..], c);
      if c in s' {
        ReplaceChars(s, WordAlt([table[0].0]), table[0].1, 0, c);
        assert s[0..] == s;
      } else {
        var k :| 0 <= k < |table[1..]| && c in table[1..][k].1;
        assert table[k + 1] == table[1..][k];
      }
    }
  }

  /** Replacing whole words by text no longer than them never lengthens the text. */
  lemma {:induction false} ReplaceWordShrinks(s: string, key: string, rep: string, i: nat)
    requires key != [] && |rep| <= |key| && i <= |s|
    ensures |ReplaceFrom(s, WordAlt([key]), rep, i)| <= |s| - i
    decreases |s| - i, 1
  {
    if i < |s| {
      if MatchLen(s, i, WordAlt([key])).Some? {
        ShrinksAtMatch(s, key, rep, i);
      } else {
        ReplaceAtCopy(s, WordAlt([key]), rep, i);
        ReplaceWordShrinks(s, key, rep, i + 1);
      }
    }
  }

  lemma {:induction false} ShrinksAtMatch(s: string, key: string, rep: string, i: nat)
    requires key != [] && |rep| <= |key| && i < |s|
    requires MatchLen(s, i, WordAlt([key])).Some?
    ensures |ReplaceFrom(s, WordAlt([key]), rep, i)| <= |s| - i
    decreases |s| - i, 0
  {
    var n := MatchLen(s, i, WordAlt([key])).value;
    assert n == |key|;
    ReplaceAtMatch(s, WordAlt([key]), rep, i, n);
    ReplaceWordShrinks(s, key, rep, i + n);
  }

  /** A table whose values are no longer than their keys never lengthens the text. */
  lemma {:induction false} ApplyTableShrinks(s: string, table: seq<(string, string)>)
    requires KeysNonEmpty(table)
    requires forall k :: 0 <= k < |table| ==> |table[k].1| <= |table[k].0|
    ensures |ApplyTable(s, table)| <= |s|
    decreases |table|
  {
    if table != [] {
      ReplaceWordShrinks(s, table[0].0, table[0].1, 0);
      ApplyTableShrinks(ReplaceAll(s, WordAlt([table[0].0]), table[0].1), table[1..]);
    }
  }

  /** Applying two tables one after the other is applying their concatenation. */
  lemma {:induction false} ApplyTableAppend(s: string, a: seq<(string, string)>, b: seq<(string, string)>)
    requires KeysNonEmpty(a) && KeysNonEmpty(b)
    ensures KeysNonEmpty(a + b)
    ensures ApplyTable(s, a + b) == ApplyTable(ApplyTable(s, a), b)
    decreases |a|
  {
    if a == [] {
      assert a + b == b;
    } else {
      assert (a + b)[1..] == a[1..] + b;
      ApplyTableAppend(ReplaceAll(s, WordAlt([a[0].0]), a[0].1), a[1..], b);
    }
  }

  /** A table that only the `entry` part changes the text with. */
  lemma {:induction false} ComposeTable(s: string, t: string, table: seq<(string, string)>,
                     before: seq<(string, string)>, entry: seq<(string, string)>,
                     rest: seq<(string, string)>)
    requires KeysNonEmpty(before) && KeysNonEmpty(entry) && KeysNonEmpty(rest)
    requires table == before + (entry + rest)
    requires ApplyTable(s, before) == s && ApplyTable(s, entry) == t && ApplyTable(t, rest) == t
    ensures KeysNonEmpty(table) && ApplyTable(s, table) == t
  {
    ApplyTableAppend(s, entry, rest);
    ApplyTableAppend(s, before, entry + rest);
  }

  lemma {:induction false} ComposeUnchanged(t: string, a1: seq<(string, string)>, a2: seq<(string, string)>,
                         a3: seq<(string, string)>)
    requires KeysNonEmpty(a1) && KeysNonEmpty(a2) && KeysNonEmpty(a3)
    requires ApplyTable(t, a1) == t && ApplyTable(t, a2) == t && ApplyTable(t, a3) == t
    ensures KeysNonEmpty(a1 + (a2 + a3)) && ApplyTable(t, a1 + (a2 + a3)) == t
  {
    ApplyTableAppend(t, a2, a3);
    ApplyTableAppend(t, a1, a2 + a3);
  }

  /** `key` does not occur, up to case, at any position from `j` on. */
  predicate NowhereFrom(s: string, key: string, j: nat)
    decreases |s| - j
  {
    j >= |s| || (!FoldEqAt(s, j, key) && NowhereFrom(s, key, j + 1))
  }

  /** No key of the table occurs anywhere in `s`, up to case. */
  predicate TableAbsent(s: string, table: seq<(string, string)>) {
    table == [] || (NowhereFrom(s, table[0].0, 0) && TableAbsent(s, table[1..]))
  }

  lemma {:induction false} NowhereNoMatch(s: string, key: string, v: string, j: nat)
    requires key != [] && j <= |s| && NowhereFrom(s, key, j)
    ensures ReplaceFrom(s, WordAlt([key]), v, j) == s[j..]
    decreases |s| - j
  {
    if j < |s| {
      NowhereNoMatch(s, key, v, j + 1);
      assert MatchLen(s, j, WordAlt([key])).None?;
      assert s[j..] == [s[j]] + s[j + 1..];
    }
  }

  /** A table none of whose keys occurs leaves the text as it is. */
  lemma {:induction false} TableAbsentIdentity(s: string, table: seq<(string, string)>)
    requires KeysNonEmpty(table) && TableAbsent(s, table)
    ensures ApplyTable(s, table) == s
    decreases |table|
  {
    if table != [] {
      NowhereNoMatch(s, table[0].0, table[0].1, 0);
      assert s[0..] == s;
      TableAbsentIdentity(s, table[1..]);
    }
  }

  // ---------------------------------------------------------------------------------------
  // Literal removal, as Python's `text.replace(phrase, "")`
  // ---------------------------------------------------------------------------------------

  /** A key that is longer than the text, or whose first letter it lacks, occurs nowhere. */
  predicate PlainlyAbsent(s: string, key: string) {
    key != [] && (|key| > |s| || forall i :: 0 <= i < |s| ==> Lower(s[i]) != Lower(key[0]))
  }

  lemma {:induction false} PlainlyAbsentNowhere(s: string, key: string, j: nat)
    requires PlainlyAbsent(s, key)
    ensures NowhereFrom(s, key, j)
    decreases |s| - j
  {
    if j < |s| {
      PlainlyAbsentNowhere(s, key, j + 1);
    }
  }

  /** A table whose every key is plainly absent from `s` has no key anywhere in it. */
  lemma {:induction false} TablePlainlyAbsent(s: string, table: seq<(string, string)>)
    requires forall k :: 0 <= k < |table| ==> PlainlyAbsent(s, table[k].0)
    ensures KeysNonEmpty(table) && TableAbsent(s, table)
    decreases |table|
  {
    if table != [] {
      PlainlyAbsentNowhere(s, table[0].0, 0);
      TablePlainlyAbsent(s, table[1..]);
    }
  }

  /** `s.replace(lit, "")`; Python leaves the text as it is when `lit` is empty. */
  function RemoveLiteral(s: string, lit: string): (r: string)
    ensures |r| <= |s|
    ensures !Contains(s, lit) ==> r == s
  {
    if lit == [] then s
    else
      RemoveShrinks(s, lit, 0);
      RemoveAbsent(s, lit);
      ReplaceAll(s, Exact(lit), [])
  }

  lemma {:induction false} RemoveAbsent(s: string, lit: string)
    requires lit != []
    ensures !Contains(s, lit) ==> ReplaceAll(s, Exact(lit), []) == s
  {
    if !Contains(s, lit) {
      forall j | 0 <= j < |s| ensures MatchLen(s, j, Exact(lit)).None? {
        assert !OccursAt(s, lit, j);
      }
      ReplaceNoMatch(s, Exact(lit), [], 0);
      assert s[0..] == s;
    }
  }

  lemma {:induction false} RemoveShrinks(s: string, lit: string, i: nat)
    requires lit != [] && i <= |s|
    ensures |ReplaceFrom(s, Exact(lit), [], i)| <= |s| - i
    decreases |s| - i
  {
    if i < |s| {
      match MatchLen(s, i, Exact(lit))
      case Some(n) =>
        ReplaceAtMatch(s, Exact(lit), [], i, n);
        RemoveShrinks(s, lit, i + n);
      case None =>
        ReplaceAtCopy(s, Exact(lit), [], i);
        RemoveShrinks(s, lit, i + 1);
    }
  }

  /** Python's loop `for phrase in phrases: text = text.replace(phrase, "")`. */
  function RemoveEach(s: string, phrases: seq<string>): (r: string)
    ensures |r| <= |s|
    ensures (forall k :: 0 <= k < |phrases| ==> !Contains(s, phrases[k])) ==> r == s
    decreases |phrases|
  {
    if phrases == [] then s
    else RemoveEach(RemoveLiteral(s, phrases[0]), phrases[1..])
  }

  // ---------------------------------------------------------------------------------------
  // `text.replace(/\s+/g, ' ').trim()` is Python's `' '.join(text.split())`
  // ---------------------------------------------------------------------------------------

  /** `s.replace(/\s+/g, ' ').trim()`. */
  function SquashAndTrim(s: string): string {
    Trim(ReplaceAll(s, SpaceRun, " "))
  }

  function Lead(x: string): string {
    if StartsWs(x) then " " else ""
  }

  function Trail(x: string): string {
    if EndsWs(x) && SpacePrefixLen(x) < |x| then " " else ""
  }

  /** The squashed form of `x`: its single-spaced words, with a space for each edge run. */
  function Squashed(x: string): string {
    Lead(x) + Collapse(x) + Trail(x)
  }

  /** Text has no words exactly when it is all whitespace. */
  lemma {:induction false} WordsEmptyIsSpace(y: string)
    ensures Words(y) == [] <==> AllSpace(y)
  {
    if Words(y) == [] {
      assert SpacePrefixLen(y) == |y|;
      assert y[..|y|] == y;
    }
    if AllSpace(y) {
      SpacePrefixOf(y, []);
      assert y + [] == y;
    }
  }

  /** Each whitespace run replaced by one space, the rest copied: what the scan produces. */
  function SquashRuns(x: string): string
    decreases |x|
  {
    if x == [] then []
    else if IsSpace(x[0]) then " " + SquashRuns(x[SpacePrefixLen(x)..])
    else x[..NonSpacePrefixLen(x)] + SquashRuns(x[NonSpacePrefixLen(x)..])
  }

  lemma {:induction false} SquashShape(s: string, i: nat)
    requires i <= |s|
    ensures ReplaceFrom(s, SpaceRun, " ", i) == SquashRuns(s[i..])
    decreases |s| - i, 1
  {
    if i == |s| {
      assert s[i..] == [];
    } else if IsSpace(s[i]) {
      SquashFromSpace(s, i);
    } else {
      SquashFromWord(s, i);
    }
  }

  lemma {:induction false} SquashFromSpace(s: string, i: nat)
    requires i < |s| && IsSpace(s[i])
    ensures ReplaceFrom(s, SpaceRun, " ", i) == SquashRuns(s[i..])
    decreases |s| - i, 0
  {
    var m := SpacePrefixLen(s[i..]);
    assert 0 < m && i + m <= |s| by { SquashRunsSpace(s, i, m); }
    SquashShape(s, i + m);
    SquashSpaceStep(s, i, m);
  }

  /** One whitespace run of the scan: agreement after the run gives agreement from its start. */
  lemma {:induction false} SquashSpaceStep(s: string, i: nat, m: nat)
    requires i < |s| && IsSpace(s[i]) && m == SpacePrefixLen(s[i..]) && i + m <= |s|
    requires ReplaceFrom(s, SpaceRun, " ", i + m) == SquashRuns(s[i + m..])
    ensures ReplaceFrom(s, SpaceRun, " ", i) == SquashRuns(s[i..])
  {
    SquashRunsSpace(s, i, m);
    ReplaceSpaceRun(s, i, m);
    SpaceCons(ReplaceFrom(s, SpaceRun, " ", i), ReplaceFrom(s, SpaceRun, " ", i + m),
              SquashRuns(s[i + m..]), SquashRuns(s[i..]));
  }

  lemma {:induction false} SpaceCons(a: string, b: string, c: string, d: string)
    requires a == " " + b && b == c && d == " " + c
    ensures a == d
  {
  }

  lemma {:induction false} SquashFromWord(s: string, i: nat)
    requires i < |s| && !IsSpace(s[i])
    ensures ReplaceFrom(s, SpaceRun, " ", i) == SquashRuns(s[i..])
    decreases |s| - i, 0
  {
    var n := NonSpacePrefixLen(s[i..]);
    assert 0 < n && i + n <= |s| by { SquashRunsWord(s, i, n); }
    SquashShape(s, i + n);
    SquashWordStep(s, i, n);
  }

  /** One word of the scan: agreement after the word gives agreement from its start. */
  lemma {:induction false} SquashWordStep(s: string, i: nat, n: nat)
    requires i < |s| && !IsSpace(s[i]) && n == NonSpacePrefixLen(s[i..]) && i + n <= |s|
    requires ReplaceFrom(s, SpaceRun, " ", i + n) == SquashRuns(s[i + n..])
    ensures ReplaceFrom(s, SpaceRun, " ", i) == SquashRuns(s[i..])
  {
    SquashRunsWord(s, i, n);
    ReplaceWordRun(s, i, n);
    WordCons(ReplaceFrom(s, SpaceRun, " ", i), ReplaceFrom(s, SpaceRun, " ", i + n),
             SquashRuns(s[i + n..]), SquashRuns(s[i..]), s[i..][..n]);
  }

  lemma {:induction false} WordCons(a: string, b: string, c: string, d: string, w: string)
    requires a == w + b && b == c && d == w + c
    ensures a == d
  {
  }

  lemma {:induction false} SquashRunsSpace(s: string, i: nat, m: nat)
    requires i < |s| && IsSpace(s[i]) && m == SpacePrefixLen(s[i..])
    ensures 0 < m && i + m <= |s| && SquashRuns(s[i..]) == " " + SquashRuns(s[i + m..])
  {
    assert s[i..][0] == s[i];
    assert s[i..][m..] == s[i + m..];
  }

  lemma {:induction false} SquashRunsWord(s: string, i: nat, n: nat)
    requires i < |s| && !IsSpace(s[i]) && n == NonSpacePrefixLen(s[i..])
    ensures 0 < n && i + n <= |s| && SquashRuns(s[i..]) == s[i..][..n] + SquashRuns(s[i + n..])
  {
    assert s[i..][0] == s[i];
    assert s[i..][n..] == s[i + n..];
  }

  /** The scan's output is the squashed form: single-spaced words, a space for each edge run. */
  lemma {:induction false} SquashRunsIsSquashed(x: string)
    ensures SquashRuns(x) == Squashed(x)
    decreases |x|, 1
  {
    if x != [] {
      if IsSpace(x[0]) {
        SquashedFromSpace(x);
      } else {
        SquashedFromWord(x);
      }
    }
  }

  lemma {:induction false} SquashedFromSpace(x: string)
    requires x != [] && IsSpace(x[0])
    ensures SquashRuns(x) == Squashed(x)
    decreases |x|, 0
  {
    var m := SpacePrefixLen(x);
    SquashRunsIsSquashed(x[m..]);
    SquashedAfterSpace(x, x[m..], m);
  }

  lemma {:induction false} SquashedFromWord(x: string)
    requires x != [] && !IsSpace(x[0])
    ensures SquashRuns(x) == Squashed(x)
    decreases |x|, 0
  {
    var n := NonSpacePrefixLen(x);
    SquashRunsIsSquashed(x[n..]);
    SquashedAfterWord(x, x[..n], x[n..], n);
  }

  lemma {:induction false} ReplaceSpaceRun(s: string, i: nat, m: nat)
    requires i < |s| && IsSpace(s[i]) && m == SpacePrefixLen(s[i..])
    ensures i + m <= |s|
    ensures ReplaceFrom(s, SpaceRun, " ", i) == " " + ReplaceFrom(s, SpaceRun, " ", i + m)
  {
    assert MatchLen(s, i, SpaceRun) == Some(m);
  }

  lemma {:induction false} SquashedAfterSpace(x: string, y: string, m: nat)
    requires x != [] && IsSpace(x[0]) && m == SpacePrefixLen(x) && y == x[m..]
    ensures Squashed(x) == " " + Squashed(y)
  {
    CollapseAfterSpace(x, y, m);
    TrailAfterSpace(x, y, m);
    AssembleAfterSpace(x, y);
  }

  lemma {:induction false} CollapseAfterSpace(x: string, y: string, m: nat)
    requires m == SpacePrefixLen(x) && y == x[m..]
    ensures Collapse(x) == Collapse(y)
  {
    assert x == x[..m] + y;
    WordsSpacePrefix(x[..m], y);
  }

  lemma {:induction false} TrailAfterSpace(x: string, y: string, m: nat)
    requires m == SpacePrefixLen(x) && y == x[m..]
    ensures Trail(x) == Trail(y)
  {
    if y != [] {
      assert EndsWs(x) == EndsWs(y) by {
        assert x[|x| - 1] == y[|y| - 1];
      }
      assert SpacePrefixLen(y) == 0 by {
        SpacePrefixOf([], y);
        assert [] + y == y;
      }
    }
  }

  lemma {:induction false} AssembleAfterSpace(x: string, y: string)
    requires Lead(x) == " " && Lead(y) == "" && Collapse(x) == Collapse(y) && Trail(x) == Trail(y)
    ensures Squashed(x) == " " + Squashed(y)
  {
  }

  lemma {:induction false} ReplaceWordRun(s: string, i: nat, n: nat)
    requires i < |s| && n == NonSpacePrefixLen(s[i..])
    ensures i + n <= |s|
    ensures ReplaceFrom(s, SpaceRun, " ", i) == s[i..][..n] + ReplaceFrom(s, SpaceRun, " ", i + n)
  {
    var w := s[i..][..n];
    forall j | i <= j < i + n ensures MatchLen(s, j, SpaceRun).None? {
      assert s[j] == w[j - i];
    }
    ReplaceCopies(s, SpaceRun, " ", i, n);
    assert s[i..i + n] == w;
  }

  lemma {:induction false} SquashedAfterWord(x: string, w: string, y: string, n: nat)
    requires x != [] && !IsSpace(x[0]) && n == NonSpacePrefixLen(x) && w == x[..n] && y == x[n..]
    ensures Squashed(x) == w + Squashed(y)
  {
    WordsAfterWord(x, w, y, n);
    WordsEmptyIsSpace(y);
    if y == [] {
      SquashedLastWord(x, w, y, n);
    } else if Words(y) == [] {
      SquashedTrailingSpace(x, w, y, n);
    } else {
      CollapseCons(w, Words(y));
      TrailAfterWord(x, y, n);
      AssembleAfterWord(x, y, w);
    }
  }

  lemma {:induction false} WordsAfterWord(x: string, w: string, y: string, n: nat)
    requires x != [] && !IsSpace(x[0]) && n == NonSpacePrefixLen(x) && w == x[..n] && y == x[n..]
    ensures Words(x) == [w] + Words(y)
  {
    assert SpacePrefixLen(x) == 0;
    assert x[0..] == x;
  }

  lemma {:induction false} SquashedLastWord(x: string, w: string, y: string, n: nat)
    requires x != [] && !IsSpace(x[0]) && n == NonSpacePrefixLen(x) && w == x[..n] && y == x[n..]
    requires Words(x) == [w] + Words(y) && y == []
    ensures Squashed(x) == w + Squashed(y)
  {
    assert Words(x) == [w];
    assert x[|x| - 1] == w[n - 1];
  }

  lemma {:induction false} SquashedTrailingSpace(x: string, w: string, y: string, n: nat)
    requires x != [] && !IsSpace(x[0]) && n == NonSpacePrefixLen(x) && w == x[..n] && y == x[n..]
    requires Words(x) == [w] + Words(y) && y != [] && Words(y) == [] && AllSpace(y)
    ensures Squashed(x) == w + Squashed(y)
  {
    assert SpacePrefixLen(x) == 0;
    assert x[|x| - 1] == y[|y| - 1];
    assert Words(x) == [w];
    assert Squashed(x) == w + " ";
  }

  lemma {:induction false} CollapseCons(w: string, ws: seq<string>)
    requires ws != []
    ensures Join(" ", [w] + ws) == w + " " + Join(" ", ws)
  {
    assert ([w] + ws)[1..] == ws;
  }

  lemma {:induction false} TrailAfterWord(x: string, y: string, n: nat)
    requires n < |x| && y == x[n..] && SpacePrefixLen(x) < |x| && !AllSpace(y)
    ensures Trail(x) == Trail(y)
  {
    SpacePrefixShort(y);
    SameLast(x, y, n);
  }

  lemma {:induction false} SameLast(x: string, y: string, n: nat)
    requires n < |x| && y == x[n..]
    ensures EndsWs(x) == EndsWs(y)
  {
    assert x[|x| - 1] == y[|y| - 1];
  }

  lemma {:induction false} SpacePrefixShort(y: string)
    requires !AllSpace(y)
    ensures SpacePrefixLen(y) < |y|
  {
    var n := SpacePrefixLen(y);
    forall j | 0 <= j < n ensures IsSpace(y[j]) {
      assert y[..n][j] == y[j];
    }
  }

  lemma {:induction false} AssembleAfterWord(x: string, y: string, w: string)
    requires Lead(x) == "" && Lead(y) == " " && Collapse(x) == w + " " + Collapse(y)
    requires Trail(x) == Trail(y)
    ensures Squashed(x) == w + Squashed(y)
  {
    AppendRegroup("", w + " " + Collapse(y), w, Collapse(y), Trail(y));
  }

  lemma {:induction false} AppendRegroup(e: string, a: string, w: string, c: string, t: string)
    requires e == [] && a == w + " " + c
    ensures e + a + t == w + (" " + c + t)
  {
  }

  /** Squashing and trimming introduces no character but the single space. */
  lemma {:induction false} SquashAndTrimChars(s: string, c: char)
    requires c in SquashAndTrim(s)
    ensures c in s || c == ' '
  {
    var y := ReplaceAll(s, SpaceRun, " ");
    var a, b :| y == a + Trim(y) + b && AllSpace(a) && AllSpace(b);
    assert c in y;
    ReplaceChars(s, SpaceRun, " ", 0, c);
    assert s[0..] == s;
  }

  /** The JavaScript whitespace clean-up and Python's split/join give the same text. */
  lemma {:induction false} SquashAndTrimIsCollapse(s: string)
    ensures SquashAndTrim(s) == Collapse(s)
  {
    SquashShape(s, 0);
    assert s[0..] == s;
    SquashRunsIsSquashed(s);
    CollapseSpec(s);
    TrimUnique(Lead(s), Collapse(s), Trail(s));
  }
}
