/**
 * The route's `escapeRegex`, which puts a backslash in front of every character that is
 * syntax in a JavaScript regular expression, and a reader for the regex sources the route
 * builds from escaped phrases: a `|`-separated list of literal branches.
 */
module RegexEscape {
  import opened Text
  import opened Wrappers

  /** The characters of the class `[-/\\^$*+?.()|[\]{}]`. */
  predicate IsRegexSpecial(c: char) {
    c == '-' || c == '/' || c == '\\' || c == '^' || c == '$' || c == '*' || c == '+'
    || c == '?' || c == '.' || c == '(' || c == ')' || c == '|' || c == '[' || c == ']'
    || c == '{' || c == '}'
  }

  /** `c` as it appears in the escaped text. */
  function EscapeChar(c: char): (r: string)
    ensures IsRegexSpecial(c) ==> r == ['\\', c]
    ensures !IsRegexSpecial(c) ==> r == [c]
  {
    if IsRegexSpecial(c) then ['\\', c] else [c]
  }

  /** `phrase.replace(/[-/\\^$*+?.()|[\]{}]/g, '\\$&')`. */
  function EscapeRegex(s: string): (r: string)
    ensures |r| >= |s|
    decreases |s|
  {
    if s == [] then [] else EscapeChar(s[0]) + EscapeRegex(s[1..])
  }

  /** Escaping works character by character, so it distributes over concatenation. */
  lemma {:induction false} EscapeAppend(a: string, b: string)
    ensures EscapeRegex(a + b) == EscapeRegex(a) + EscapeRegex(b)
    decreases |a|
  {
    if a == [] {
      assert a + b == b;
    } else {
      assert (a + b)[1..] == a[1..] + b;
      EscapeAppend(a[1..], b);
    }
  }

  /** A character is left alone exactly when it is not special. */
  lemma {:induction false} EscapeSingle(c: char)
    ensures EscapeRegex([c]) == (if IsRegexSpecial(c) then ['\\', c] else [c])
  {
    assert [c][1..] == [];
  }

  /** Deleting each inserted backslash: a backslash is dropped and the character after it kept. */
  function Unescape(r: string): (s: string)
    ensures |s| <= |r|
    decreases |r|
  {
    if r == [] then []
    else if r[0] == '\\' && |r| >= 2 then [r[1]] + Unescape(r[2..])
    else [r[0]] + Unescape(r[1..])
  }

  /** Deleting the inserted backslashes recovers the phrase. */
  lemma {:induction false} UnescapeEscape(s: string)
    ensures Unescape(EscapeRegex(s)) == s
    decreases |s|
  {
    if s != [] {
      UnescapeEscape(s[1..]);
      UnescapeChar(s[0], EscapeRegex(s[1..]));
      assert s == [s[0]] + s[1..];
    }
  }

  lemma {:induction false} UnescapeChar(c: char, rest: string)
    ensures Unescape(EscapeChar(c) + rest) == [c] + Unescape(rest)
  {
    if IsRegexSpecial(c) {
      assert (['\\', c] + rest)[2..] == rest;
    } else {
      assert ([c] + rest)[1..] == rest;
    }
  }

  // ---------------------------------------------------------------------------------------
  // Reading `e1|e2|...|en` back, as the regex engine does
  // ---------------------------------------------------------------------------------------

  /**
   * Reads the rest `r` of an alternation source, with `cur` the literal text of the branch
   * being read and `acc` the branches already closed. An escaped special character stands
   * for itself; `|` closes a branch; any other special character, or an escape of a
   * character that is not special, makes the source something other than a list of
   * literals (None).
   */
  function ParseAlt(r: string, cur: string, acc: seq<string>): Option<seq<string>>
    decreases |r|
  {
    if r == [] then Some(acc + [cur])
    else if r[0] == '\\' then
      if |r| >= 2 && IsRegexSpecial(r[1]) then ParseAlt(r[2..], cur + [r[1]], acc) else None
    else if r[0] == '|' then ParseAlt(r[1..], [], acc + [cur])
    else if IsRegexSpecial(r[0]) then None
    else ParseAlt(r[1..], cur + [r[0]], acc)
  }

  /** The literal branches of a regex source, if it is an alternation of literals. */
  function ParseAlternation(r: string): Option<seq<string>> {
    ParseAlt(r, [], [])
  }

  function EscapeAll(ps: seq<string>): (r: seq<string>)
    ensures |r| == |ps|
    ensures forall k :: 0 <= k < |ps| ==> r[k] == EscapeRegex(ps[k])
  {
    if ps == [] then [] else [EscapeRegex(ps[0])] + EscapeAll(ps[1..])
  }

  /** An escaped phrase is read back as literal text of the current branch. */
  lemma {:induction false} ParseEscaped(s: string, rest: string, cur: string, acc: seq<string>)
    ensures ParseAlt(EscapeRegex(s) + rest, cur, acc) == ParseAlt(rest, cur + s, acc)
    decreases |s|
  {
    if s == [] {
      assert EscapeRegex(s) + rest == rest;
      assert cur + s == cur;
    } else {
      ParseEscaped(s[1..], rest, cur + [s[0]], acc);
      ParseEscapedStep(s, rest, cur, acc);
    }
  }

  /** One character of the phrase: its escape is read as that character. */
  lemma {:induction false} ParseEscapedStep(s: string, rest: string, cur: string, acc: seq<string>)
    requires s != []
    requires ParseAlt(EscapeRegex(s[1..]) + rest, cur + [s[0]], acc)
             == ParseAlt(rest, cur + [s[0]] + s[1..], acc)
    ensures ParseAlt(EscapeRegex(s) + rest, cur, acc) == ParseAlt(rest, cur + s, acc)
  {
    HeadSplit(cur, s);
    EscapeSplit(s, rest);
    ParseChar(s[0], EscapeRegex(s[1..]) + rest, cur, acc);
  }

  lemma {:induction false} HeadSplit(cur: string, s: string)
    requires s != []
    ensures cur + [s[0]] + s[1..] == cur + s
  {
    assert s == [s[0]] + s[1..];
  }

  lemma {:induction false} EscapeSplit(s: string, rest: string)
    requires s != []
    ensures EscapeRegex(s) + rest == EscapeChar(s[0]) + (EscapeRegex(s[1..]) + rest)
  {
    EscapeRegroup(EscapeRegex(s), EscapeChar(s[0]), EscapeRegex(s[1..]), rest);
  }

  lemma {:induction false} EscapeRegroup(e: string, h: string, t: string, rest: string)
    requires e == h + t
    ensures e + rest == h + (t + rest)
  {
  }

  lemma {:induction false} ParseChar(c: char, rest: string, cur: string, acc: seq<string>)
    ensures ParseAlt(EscapeChar(c) + rest, cur, acc) == ParseAlt(rest, cur + [c], acc)
  {
    if IsRegexSpecial(c) {
      assert (['\\', c] + rest)[2..] == rest;
    } else {
      assert ([c] + rest)[1..] == rest;
    }
  }

  /**
   * `safePhrases.join("|")` for escaped phrases reads back as exactly the phrases, in order:
   * every branch of `\b(...)\b` is one whole phrase, taken literally.
   */
  lemma {:induction false} ParseJoinedAlt(ps: seq<string>, cur: string, acc: seq<string>)
    requires ps != []
    ensures ParseAlt(Join("|", EscapeAll(ps)), cur, acc) == Some(acc + [cur + ps[0]] + ps[1..])
    decreases |ps|
  {
    if |ps| == 1 {
      ParseLastBranch(ps, cur, acc);
    } else {
      var acc' := acc + [cur + ps[0]];
      ParseJoinedAlt(ps[1..], [], acc');
      FreshBranch(acc', ps[1..]);
      ParseNextBranch(ps, cur, acc);
    }
  }

  /** The last phrase is read up to the end of the source, which closes its branch. */
  lemma {:induction false} ParseLastBranch(ps: seq<string>, cur: string, acc: seq<string>)
    requires |ps| == 1
    ensures ParseAlt(Join("|", EscapeAll(ps)), cur, acc) == Some(acc + [cur + ps[0]] + ps[1..])
  {
    assert Join("|", EscapeAll(ps)) == EscapeRegex(ps[0]) + [];
    ParseEscaped(ps[0], [], cur, acc);
    assert ps[1..] == [];
    assert acc + [cur + ps[0]] + ps[1..] == acc + [cur + ps[0]];
  }

  lemma {:induction false} FreshBranch(acc: seq<string>, ps: seq<string>)
    requires ps != []
    ensures acc + [[] + ps[0]] + ps[1..] == acc + ps
  {
    assert [] + ps[0] == ps[0];
    assert [ps[0]] + ps[1..] == ps;
  }

  /** A phrase followed by `|` closes its branch, and the rest is read from a fresh branch. */
  lemma {:induction false} ParseNextBranch(ps: seq<string>, cur: string, acc: seq<string>)
    requires |ps| > 1
    requires ParseAlt(Join("|", EscapeAll(ps[1..])), [], acc + [cur + ps[0]])
             == Some(acc + [cur + ps[0]] + ps[1..])
    ensures ParseAlt(Join("|", EscapeAll(ps)), cur, acc) == Some(acc + [cur + ps[0]] + ps[1..])
  {
    var tail := Join("|", EscapeAll(ps[1..]));
    JoinEscapedTail(ps);
    ParseEscaped(ps[0], "|" + tail, cur, acc);
    ParseBar(tail, cur + ps[0], acc);
  }

  lemma {:induction false} JoinEscapedTail(ps: seq<string>)
    requires |ps| > 1
    ensures Join("|", EscapeAll(ps)) == EscapeRegex(ps[0]) + ("|" + Join("|", EscapeAll(ps[1..])))
  {
    var es := EscapeAll(ps);
    assert es == [EscapeRegex(ps[0])] + EscapeAll(ps[1..]);
    assert es[0] == EscapeRegex(ps[0]) && es[1..] == EscapeAll(ps[1..]);
    BarRegroup(Join("|", es), es[0], Join("|", es[1..]));
  }

  lemma {:induction false} BarRegroup(j: string, a: string, t: string)
    requires j == a + "|" + t
    ensures j == a + ("|" + t)
  {
  }

  /** `|` closes the current branch. */
  lemma {:induction false} ParseBar(tail: string, cur: string, acc: seq<string>)
    ensures ParseAlt("|" + tail, cur, acc) == ParseAlt(tail, [], acc + [cur])
  {
    assert ("|" + tail)[1..] == tail;
  }

  /** The route's alternation source names exactly the phrase list. */
  lemma {:induction false} AlternationOfPhrases(ps: seq<string>)
    requires ps != []
    ensures ParseAlternation(Join("|", EscapeAll(ps))) == Some(ps)
  {
    var none: seq<string> := [];
    var empty: string := [];
    ParseJoinedAlt(ps, empty, none);
    assert empty + ps[0] == ps[0];
    assert none + [ps[0]] + ps[1..] == ps;
  }
}
