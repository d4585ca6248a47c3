/**
 * Whole-word replacement seen word by word. On a single-spaced text made of tokens, each
 * either a word of `\w` characters or a run of characters that are neither word characters
 * nor whitespace, `text.replace(/\bw1 w2 ... wn\b/gi, v)` replaces, left to right and
 * without overlap, every run of tokens equal to the phrase `w1 ... wn` up to ASCII case.
 */
module WordRewrite {
  import opened Text
  import opened Wrappers
  import opened Rewrite

  predicate AllWordChars(w: string) {
    forall k :: 0 <= k < |w| ==> IsWordChar(w[k])
  }

  predicate NoWordChars(w: string) {
    forall k :: 0 <= k < |w| ==> !IsWordChar(w[k])
  }

  /** A word of a phrase: non-empty, `\w` characters only. */
  predicate IsWord(w: string) {
    w != [] && AllWordChars(w)
  }

  /** A token of the text: a word, or a non-empty run of non-word, non-space characters. */
  predicate Token(w: string) {
    w != [] && NoSpace(w) && (AllWordChars(w) || NoWordChars(w))
  }

  predicate Tokens(ws: seq<string>) {
    forall k :: 0 <= k < |ws| ==> Token(ws[k])
  }

  /** A phrase to replace: one or more words. */
  predicate Phrase(ks: seq<string>) {
    ks != [] && forall k :: 0 <= k < |ks| ==> IsWord(ks[k])
  }

  /** Equal up to ASCII case. */
  predicate FoldEq(a: string, b: string) {
    |a| == |b| && forall k :: 0 <= k < |a| ==> Lower(a[k]) == Lower(b[k])
  }

  /** The tokens `ws` begin with the phrase `ks`, up to case. */
  predicate StartsWithPhrase(ws: seq<string>, ks: seq<string>) {
    |ks| <= |ws| && forall k :: 0 <= k < |ks| ==> FoldEq(ws[k], ks[k])
  }

  /** Every occurrence of the phrase, found left to right and without overlap, becomes `v`. */
  function SubstPhrase(ws: seq<string>, ks: seq<string>, v: string): (r: seq<string>)
    requires ks != []
    ensures |r| <= |ws| && (ws != [] ==> r != [])
    decreases |ws|
  {
    if ws == [] then []
    else if StartsWithPhrase(ws, ks) then [v] + SubstPhrase(ws[|ks|..], ks, v)
    else [ws[0]] + SubstPhrase(ws[1..], ks, v)
  }

  /** The pattern `\bw1 ... wn\b` with the `i` flag. */
  function PhrasePattern(ks: seq<string>): (p: Pattern)
    requires Phrase(ks)
    ensures p.Valid() && p.WordAlt? && |p.alts| == 1
  {
    PhraseEnds(ks);
    WordAlt([Join(" ", ks)])
  }

  // ---------------------------------------------------------------------------------------
  // Characters, case folding and joined phrases
  // ---------------------------------------------------------------------------------------

  /** Case folding keeps a word character a word character, and a space a space. */
  lemma {:induction false} LowerClass(c: char)
    ensures IsWordChar(Lower(c)) <==> IsWordChar(c)
    ensures Lower(c) == ' ' <==> c == ' '
  {
  }

  /** `FoldEqAt` compares position by position. */
  lemma {:induction false} FoldEqAtIff(s: string, i: nat, a: string)
    ensures FoldEqAt(s, i, a) <==>
              i + |a| <= |s| && forall j :: 0 <= j < |a| ==> Lower(s[i + j]) == Lower(a[j])
    decreases |a|
  {
    if a != [] {
      FoldEqAtIff(s, i + 1, a[1..]);
      if i + |a| <= |s| && forall j :: 0 <= j < |a| ==> Lower(s[i + j]) == Lower(a[j]) {
        forall j | 0 <= j < |a[1..]| ensures Lower(s[i + 1 + j]) == Lower(a[1..][j]) {
          assert Lower(s[i + (j + 1)]) == Lower(a[j + 1]);
        }
      }
      if FoldEqAt(s, i, a) {
        forall j | 0 <= j < |a| ensures Lower(s[i + j]) == Lower(a[j]) {
          if j > 0 {
            assert a[j] == a[1..][j - 1] && s[i + j] == s[i + 1 + (j - 1)];
          }
        }
      }
    }
  }

  /** A phrase joined with spaces starts and ends with a word character. */
  lemma {:induction false} PhraseEnds(ks: seq<string>)
    requires Phrase(ks)
    ensures Join(" ", ks) != [] && IsWordChar(Join(" ", ks)[0])
    ensures IsWordChar(Join(" ", ks)[|Join(" ", ks)| - 1])
    decreases |ks|
  {
    if |ks| > 1 {
      PhraseTail(ks);
      PhraseEnds(ks[1..]);
      JoinFirst(ks);
      assert IsWord(ks[0]);
    } else {
      assert IsWord(ks[0]);
    }
  }

  lemma {:induction false} JoinFirst(ws: seq<string>)
    requires |ws| > 1
    ensures Join(" ", ws) == ws[0] + " " + Join(" ", ws[1..])
  {
  }

  /** Joining a first token to the join of a non-empty rest puts one space between them. */
  lemma {:induction false} JoinCons(w: string, rest: seq<string>)
    requires rest != []
    ensures Join(" ", [w] + rest) == w + " " + Join(" ", rest)
  {
    assert ([w] + rest)[1..] == rest;
  }

  /** The join of the first `m` tokens, a space and the join of the others. */
  lemma {:induction false} JoinSplitAt(ws: seq<string>, m: nat)
    requires 0 < m < |ws|
    ensures Join(" ", ws) == Join(" ", ws[..m]) + " " + Join(" ", ws[m..])
    decreases m
  {
    JoinFirst(ws);
    if m > 1 {
      JoinSplitAt(ws[1..], m - 1);
      assert ws[1..][..m - 1] == ws[..m][1..] && ws[1..][m - 1..] == ws[m..];
      JoinFirst(ws[..m]);
    }
  }

  lemma {:induction false} FoldEqConcat(a: string, b: string, c: string, d: string)
    requires FoldEq(a, c) && FoldEq(b, d)
    ensures FoldEq(a + b, c + d)
  {
    forall k | 0 <= k < |a + b| ensures Lower((a + b)[k]) == Lower((c + d)[k]) {
      if k >= |a| {
        assert (a + b)[k] == b[k - |a|] && (c + d)[k] == d[k - |c|];
      }
    }
  }

  /** Token by token equality up to case is equality of the joined texts up to case. */
  lemma {:induction false} JoinFoldEq(ws: seq<string>, ks: seq<string>)
    requires |ws| == |ks| && forall k :: 0 <= k < |ks| ==> FoldEq(ws[k], ks[k])
    ensures FoldEq(Join(" ", ws), Join(" ", ks))
    decreases |ks|
  {
    if |ks| == 1 {
      assert FoldEq(ws[0], ks[0]);
    } else if |ks| > 1 {
      JoinFoldEq(ws[1..], ks[1..]);
      JoinFirst(ws);
      JoinFirst(ks);
      assert FoldEq(ws[0], ks[0]);
      FoldEqConcat(ws[0], " ", ks[0], " ");
      FoldEqConcat(ws[0] + " ", Join(" ", ws[1..]), ks[0] + " ", Join(" ", ks[1..]));
    }
  }

  // ---------------------------------------------------------------------------------------
  // Where the phrase can match
  // ---------------------------------------------------------------------------------------

  /** No match starts at a character that is not a word character. */
  lemma {:induction false} NoMatchOffWord(s: string, j: nat, ks: seq<string>)
    requires Phrase(ks) && j < |s| && !IsWordChar(s[j])
    ensures MatchLen(s, j, PhrasePattern(ks)).None?
  {
    var key := Join(" ", ks);
    PhraseEnds(ks);
    LowerClass(s[j]);
    LowerClass(key[0]);
    assert !FoldEqAt(s, j, key);
    var alts: seq<string> := [key];
    assert alts[1..] == [];
  }

  /** Text equal to the phrase up to case, starting and ending a word, is matched whole. */
  lemma {:induction false} MatchAtPhrase(s: string, i: nat, ks: seq<string>, head: string)
    requires Phrase(ks) && FoldEq(head, Join(" ", ks))
    requires i + |head| <= |s| && s[i..i + |head|] == head
    requires i == 0 || !IsWordChar(s[i - 1])
    requires i + |head| == |s| || !IsWordChar(s[i + |head|])
    ensures MatchLen(s, i, PhrasePattern(ks)) == Some(|head|)
  {
    var key := Join(" ", ks);
    var n := |head|;
    PhraseEnds(ks);
    forall j | 0 <= j < |key| ensures Lower(s[i + j]) == Lower(key[j]) {
      assert s[i + j] == head[j];
    }
    FoldEqAtIff(s, i, key);
    assert s[i] == head[0] && s[i + n - 1] == head[n - 1];
    LowerClass(s[i]);
    LowerClass(key[0]);
    LowerClass(s[i + n - 1]);
    LowerClass(key[n - 1]);
    assert Boundary(s, i) && Boundary(s, i + n);
    assert AltMatches(s, i, key);
  }

  /**
   * A whole-word match of the phrase at the start of a token means the tokens from there on
   * begin with the phrase: spaces and word ends have to line up.
   */
  lemma {:induction false} PhraseAligned(s: string, pre: string, ws: seq<string>, ks: seq<string>)
    requires Tokens(ws) && Phrase(ks)
    requires s == pre + Join(" ", ws)
    requires AltMatches(s, |pre|, Join(" ", ks))
    ensures StartsWithPhrase(ws, ks)
    decreases |ks|
  {
    var i := |pre|;
    var key := Join(" ", ks);
    PhraseEnds(ks);
    assert ws != [];
    var w0 := ws[0];
    HeadWord(s, pre, ws, ks);
    if |ks| > 1 {
      JoinFirst(ks);
      assert |ws| > 1;
      JoinFirst(ws);
      var pre2 := pre + w0 + " ";
      var key2 := Join(" ", ks[1..]);
      Layout(s, pre, w0, Join(" ", ws[1..]));
      TokensAfter(ws, 1);
      PhraseTail(ks);
      TailMatches(s, i, key, |w0| + 1, key2);
      PhraseAligned(s, pre2, ws[1..], ks[1..]);
      StartsWithCons(ws, ks);
    }
  }

  /** The words of a phrase after its first still form a phrase. */
  lemma {:induction false} PhraseTail(ks: seq<string>)
    requires Phrase(ks) && |ks| > 1
    ensures Phrase(ks[1..])
  {
    forall k | 0 <= k < |ks[1..]| ensures IsWord(ks[1..][k]) {
      assert ks[1..][k] == ks[k + 1];
    }
  }

  /** A first token equal to the first word, then the rest of the phrase. */
  lemma {:induction false} StartsWithCons(ws: seq<string>, ks: seq<string>)
    requires ws != [] && ks != [] && FoldEq(ws[0], ks[0])
    requires StartsWithPhrase(ws[1..], ks[1..])
    ensures StartsWithPhrase(ws, ks)
  {
    forall k | 0 <= k < |ks| ensures FoldEq(ws[k], ks[k]) {
      if k > 0 {
        assert ws[k] == ws[1..][k - 1] && ks[k] == ks[1..][k - 1];
      }
    }
  }

  /**
   * The first token is as long as the phrase's first word and equal to it up to case; if the
   * phrase goes on, a space follows.
   */
  lemma {:induction false} HeadWord(s: string, pre: string, ws: seq<string>, ks: seq<string>)
    requires Tokens(ws) && Phrase(ks) && ws != []
    requires s == pre + Join(" ", ws)
    requires AltMatches(s, |pre|, Join(" ", ks))
    ensures FoldEq(ws[0], ks[0])
  {
    var i := |pre|;
    var key := Join(" ", ks);
    var k0 := ks[0];
    var w0 := ws[0];
    PhraseEnds(ks);
    FoldEqAtIff(s, i, key);
    var rest := if |ws| == 1 then [] else " " + Join(" ", ws[1..]);
    assert s == pre + w0 + rest by {
      if |ws| > 1 {
        JoinFirst(ws);
      }
    }
    var t := s[i..];
    assert t == w0 + rest;
    forall j | 0 <= j < |key| ensures Lower(t[j]) == Lower(key[j]) {
      assert t[j] == s[i + j];
    }
    if |ks| > 1 {
      JoinFirst(ks);
      assert k0 == key[..|k0|] && key[|k0|] == ' ';
    } else {
      var n := |key|;
      assert key == k0 && key[..n] == key;
      assert t[n - 1] == s[i + n - 1];
      LowerClass(s[i + n - 1]);
      LowerClass(key[n - 1]);
      assert Boundary(s, i + n);
      assert n < |t| ==> t[n] == s[i + n];
    }
    HeadWordAt(t, w0, rest, k0, key);
  }

  /** The core of `HeadWord`, on the text from the match onwards. */
  lemma {:induction false} HeadWordAt(t: string, w0: string, rest: string, k0: string, key: string)
    requires Token(w0) && IsWord(k0) && t == w0 + rest && (rest == [] || rest[0] == ' ')
    requires |k0| <= |key| <= |t| && key[..|k0|] == k0
    requires forall j :: 0 <= j < |key| ==> Lower(t[j]) == Lower(key[j])
    requires |k0| < |key| ==> key[|k0|] == ' '
    requires |k0| == |key| ==> |k0| == |t| || !IsWordChar(t[|k0|])
    ensures FoldEq(w0, k0)
  {
    var n := |k0|;
    forall j | 0 <= j < n ensures IsWordChar(t[j]) {
      assert key[j] == k0[j];
      LowerClass(t[j]);
      LowerClass(key[j]);
    }
    WordLengths(t, w0, rest, n, |key|);
    if n < |key| {
      LowerClass(t[n]);
    }
    assert |w0| == n;
    forall j | 0 <= j < n ensures Lower(w0[j]) == Lower(k0[j]) {
      assert t[j] == w0[j] && key[j] == k0[j];
    }
  }

  /**
   * A token whose first `n` characters are word characters is a word at least `n` long,
   * when what follows it (a space, or nothing) leaves room for `m >= n` more characters.
   */
  lemma {:induction false} WordLengths(t: string, w0: string, rest: string, n: nat, m: nat)
    requires Token(w0) && t == w0 + rest && 0 < n <= m <= |t|
    requires rest == [] || rest[0] == ' '
    requires forall j :: 0 <= j < n ==> IsWordChar(t[j])
    ensures n <= |w0| && AllWordChars(w0)
    ensures n < |w0| ==> IsWordChar(t[n])
    ensures |w0| == n && n < m ==> t[n] == ' '
  {
    assert t[0] == w0[0];
    if |w0| < |t| {
      assert t[|w0|] == rest[0];
    }
  }

  /** The rest of a phrase match, after its first word and space, is a match of the rest. */
  lemma {:induction false} TailMatches(s: string, i: nat, key: string, d: nat, key2: string)
    requires AltMatches(s, i, key) && 0 < d <= |key| && key[d..] == key2
    ensures AltMatches(s, i + d, key2)
  {
    FoldEqAtIff(s, i, key);
    forall j | 0 <= j < |key2| ensures Lower(s[i + d + j]) == Lower(key2[j]) {
      assert key2[j] == key[d + j];
    }
    FoldEqAtIff(s, i + d, key2);
  }

  // ---------------------------------------------------------------------------------------
  // Character-level replacement is token-level replacement
  // ---------------------------------------------------------------------------------------

  /**
   * Replacing the phrase in the single-spaced join of the tokens is replacing it token by
   * token, then joining.
   */
  lemma {:induction false} ReplacePhrase(ws: seq<string>, ks: seq<string>, v: string)
    requires Tokens(ws) && Phrase(ks)
    ensures ReplaceAll(Join(" ", ws), PhrasePattern(ks), v) == Join(" ", SubstPhrase(ws, ks, v))
  {
    var nothing: string := [];
    assert Join(" ", ws) == nothing + Join(" ", ws);
    ReplacePhraseFrom(Join(" ", ws), nothing, ws, ks, v);
  }

  lemma {:induction false} ReplacePhraseFrom(s: string, pre: string, ws: seq<string>, ks: seq<string>, v: string)
    requires Tokens(ws) && Phrase(ks)
    requires s == pre + Join(" ", ws) && (pre == [] || pre[|pre| - 1] == ' ')
    ensures ReplaceFrom(s, PhrasePattern(ks), v, |pre|) == Join(" ", SubstPhrase(ws, ks, v))
    decreases |ws|, 1
  {
    if ws == [] {
      assert s == pre;
    } else if StartsWithPhrase(ws, ks) {
      ReplaceAtPhrase(s, pre, ws, ks, v);
    } else {
      ReplaceAtToken(s, pre, ws, ks, v);
    }
  }

  lemma {:induction false} TokensAfter(ws: seq<string>, m: nat)
    requires Tokens(ws) && m <= |ws|
    ensures Tokens(ws[m..])
  {
    forall k | 0 <= k < |ws[m..]| ensures Token(ws[m..][k]) {
      assert ws[m..][k] == ws[m + k];
    }
  }

  /** At a phrase occurrence the replacement is emitted and the tokens after it are scanned. */
  lemma {:induction false} ReplaceAtPhrase(s: string, pre: string, ws: seq<string>, ks: seq<string>, v: string)
    requires Tokens(ws) && Phrase(ks) && ws != [] && StartsWithPhrase(ws, ks)
    requires s == pre + Join(" ", ws) && (pre == [] || pre[|pre| - 1] == ' ')
    ensures ReplaceFrom(s, PhrasePattern(ks), v, |pre|) == Join(" ", SubstPhrase(ws, ks, v))
    decreases |ws|, 0
  {
    var m := |ks|;
    assert SubstPhrase(ws, ks, v) == [v] + SubstPhrase(ws[m..], ks, v);
    if m == |ws| {
      LastPhrase(s, pre, ws, ks, v);
      assert ws[m..] == [];
    } else {
      var pre2 := pre + Join(" ", ws[..m]) + " ";
      PhraseStep(s, pre, ws, ks, v);
      TokensAfter(ws, m);
      ReplacePhraseFrom(s, pre2, ws[m..], ks, v);
      JoinCons(v, SubstPhrase(ws[m..], ks, v));
    }
  }

  /** The tokens that start with the phrase, joined, equal the phrase up to case. */
  lemma {:induction false} PhraseHead(ws: seq<string>, ks: seq<string>)
    requires StartsWithPhrase(ws, ks)
    ensures FoldEq(Join(" ", ws[..|ks|]), Join(" ", ks))
  {
    forall k | 0 <= k < |ks| ensures FoldEq(ws[..|ks|][k], ks[k]) {
      assert ws[..|ks|][k] == ws[k];
    }
    JoinFoldEq(ws[..|ks|], ks);
  }

  /** A phrase occurrence that ends the text is replaced, and nothing follows. */
  lemma {:induction false} LastPhrase(s: string, pre: string, ws: seq<string>, ks: seq<string>, v: string)
    requires Tokens(ws) && Phrase(ks) && StartsWithPhrase(ws, ks) && |ks| == |ws|
    requires s == pre + Join(" ", ws) && (pre == [] || pre[|pre| - 1] == ' ')
    ensures ReplaceFrom(s, PhrasePattern(ks), v, |pre|) == v
  {
    var p := PhrasePattern(ks);
    var i := |pre|;
    var head := Join(" ", ws);
    PhraseHead(ws, ks);
    assert ws[..|ks|] == ws;
    MatchAtPhrase(s, i, ks, head);
    ReplaceAtMatch(s, p, v, i, |head|);
  }

  /** A phrase occurrence followed by more tokens is replaced, and the space after it copied. */
  lemma {:induction false} PhraseStep(s: string, pre: string, ws: seq<string>, ks: seq<string>, v: string)
    requires Tokens(ws) && Phrase(ks) && StartsWithPhrase(ws, ks) && |ks| < |ws|
    requires s == pre + Join(" ", ws) && (pre == [] || pre[|pre| - 1] == ' ')
    ensures s == (pre + Join(" ", ws[..|ks|]) + " ") + Join(" ", ws[|ks|..])
    ensures ReplaceFrom(s, PhrasePattern(ks), v, |pre|)
      == v + " " + ReplaceFrom(s, PhrasePattern(ks), v, |pre + Join(" ", ws[..|ks|]) + " "|)
  {
    var p := PhrasePattern(ks);
    var m := |ks|;
    var i := |pre|;
    var head := Join(" ", ws[..m]);
    PhraseHead(ws, ks);
    JoinSplitAt(ws, m);
    Layout(s, pre, head, Join(" ", ws[m..]));
    ReplaceThenSpace(s, i, ks, head, v, |pre + head + " "|);
  }

  /** Text equal to the phrase, then a space: the replacement, then the space. */
  lemma {:induction false} ReplaceThenSpace(s: string, i: nat, ks: seq<string>, head: string, v: string, next: nat)
    requires Phrase(ks) && FoldEq(head, Join(" ", ks))
    requires i + |head| < |s| && s[i..i + |head|] == head && s[i + |head|] == ' '
    requires i == 0 || !IsWordChar(s[i - 1])
    requires next == i + |head| + 1
    ensures ReplaceFrom(s, PhrasePattern(ks), v, i) == v + " " + ReplaceFrom(s, PhrasePattern(ks), v, next)
  {
    var p := PhrasePattern(ks);
    var n := |head|;
    MatchAtPhrase(s, i, ks, head);
    NoMatchOffWord(s, i + n, ks);
    MatchThenSpace(s, p, v, i, n, next);
  }

  /** A match of length `n` at `i`, then a space that starts none: the replacement, then the space. */
  lemma {:induction false} MatchThenSpace(s: string, p: Pattern, v: string, i: nat, n: nat, next: nat)
    requires p.Valid() && i + n < |s| && s[i + n] == ' ' && next == i + n + 1
    requires MatchLen(s, i, p) == Some(n) && MatchLen(s, i + n, p).None?
    ensures ReplaceFrom(s, p, v, i) == v + " " + ReplaceFrom(s, p, v, next)
  {
    ReplaceAtMatch(s, p, v, i, n);
    ReplaceAtCopy(s, p, v, i + n);
    SpaceRegroup(ReplaceFrom(s, p, v, i), v, ReplaceFrom(s, p, v, i + n), ReplaceFrom(s, p, v, next));
  }

  lemma {:induction false} SpaceRegroup(a: string, v: string, b: string, c: string)
    requires a == v + b && b == [' '] + c
    ensures a == v + " " + c
  {
  }

  /** A token that does not start the phrase is copied with the space after it. */
  lemma {:induction false} ReplaceAtToken(s: string, pre: string, ws: seq<string>, ks: seq<string>, v: string)
    requires Tokens(ws) && Phrase(ks) && ws != [] && !StartsWithPhrase(ws, ks)
    requires s == pre + Join(" ", ws) && (pre == [] || pre[|pre| - 1] == ' ')
    ensures ReplaceFrom(s, PhrasePattern(ks), v, |pre|) == Join(" ", SubstPhrase(ws, ks, v))
    decreases |ws|, 0
  {
    var p := PhrasePattern(ks);
    var w := ws[0];
    assert SubstPhrase(ws, ks, v) == [w] + SubstPhrase(ws[1..], ks, v);
    if |ws| == 1 {
      CopyLastToken(s, pre, ws, ks, v);
    } else {
      var pre2 := pre + w + " ";
      CopyToken(s, pre, ws, ks, v);
      TokensAfter(ws, 1);
      ReplacePhraseFrom(s, pre2, ws[1..], ks, v);
      JoinCons(w, SubstPhrase(ws[1..], ks, v));
    }
  }

  /** The last token, when it does not start the phrase, is copied as it is. */
  lemma {:induction false} CopyLastToken(s: string, pre: string, ws: seq<string>, ks: seq<string>, v: string)
    requires Tokens(ws) && Phrase(ks) && |ws| == 1 && !StartsWithPhrase(ws, ks)
    requires s == pre + Join(" ", ws) && (pre == [] || pre[|pre| - 1] == ' ')
    ensures ReplaceFrom(s, PhrasePattern(ks), v, |pre|) == ws[0]
  {
    var p := PhrasePattern(ks);
    var i := |pre|;
    var w := ws[0];
    TokenNoMatch(s, pre, ws, ks);
    ReplaceCopies(s, p, v, i, |w|);
    assert s == pre + w;
  }

  /** A token that does not start the phrase is copied, with the space after it. */
  lemma {:induction false} CopyToken(s: string, pre: string, ws: seq<string>, ks: seq<string>, v: string)
    requires Tokens(ws) && Phrase(ks) && |ws| > 1 && !StartsWithPhrase(ws, ks)
    requires s == pre + Join(" ", ws) && (pre == [] || pre[|pre| - 1] == ' ')
    ensures s == (pre + ws[0] + " ") + Join(" ", ws[1..])
    ensures ReplaceFrom(s, PhrasePattern(ks), v, |pre|)
      == ws[0] + " " + ReplaceFrom(s, PhrasePattern(ks), v, |pre + ws[0] + " "|)
  {
    var p := PhrasePattern(ks);
    var i := |pre|;
    var w := ws[0];
    JoinFirst(ws);
    Layout(s, pre, w, Join(" ", ws[1..]));
    TokenNoMatch(s, pre, ws, ks);
    CopyThenSpace(s, i, w, ks, v);
  }

  /** A stretch with no match in it, then a space: both are copied. */
  lemma {:induction false} CopyThenSpace(s: string, i: nat, w: string, ks: seq<string>, v: string)
    requires Phrase(ks) && i + |w| < |s| && s[i..i + |w|] == w && s[i + |w|] == ' '
    requires forall j :: i <= j < i + |w| ==> MatchLen(s, j, PhrasePattern(ks)).None?
    ensures ReplaceFrom(s, PhrasePattern(ks), v, i)
      == w + " " + ReplaceFrom(s, PhrasePattern(ks), v, i + |w| + 1)
  {
    var p := PhrasePattern(ks);
    var n := |w|;
    ReplaceCopies(s, p, v, i, n);
    NoMatchOffWord(s, i + n, ks);
    ReplaceAtCopy(s, p, v, i + n);
    SpaceRegroup(ReplaceFrom(s, p, v, i), w, ReplaceFrom(s, p, v, i + n), ReplaceFrom(s, p, v, i + n + 1));
  }

  /** Where a token and a space sit in a text that has `pre` in front of them. */
  lemma {:induction false} Layout(s: string, pre: string, head: string, tail: string)
    requires s == pre + (head + " " + tail)
    ensures s == (pre + head + " ") + tail && |pre + head + " "| == |pre| + |head| + 1
    ensures s[|pre|..|pre| + |head|] == head && s[|pre| + |head|] == ' '
    ensures s[|pre|..|pre| + |head| + 1] == head + " "
  {
    assert (pre + (head + " " + tail))[|pre|..] == head + " " + tail;
  }

  /** Inside a token that does not start the phrase, no match starts. */
  lemma {:induction false} TokenNoMatch(s: string, pre: string, ws: seq<string>, ks: seq<string>)
    requires Tokens(ws) && Phrase(ks) && ws != [] && !StartsWithPhrase(ws, ks)
    requires s == pre + Join(" ", ws)
    ensures |pre| + |ws[0]| <= |s| && s[|pre|..|pre| + |ws[0]|] == ws[0]
    ensures forall j :: |pre| <= j < |pre| + |ws[0]| ==> MatchLen(s, j, PhrasePattern(ks)).None?
  {
    var i := |pre|;
    var w := ws[0];
    assert Token(w);
    assert s[i..i + |w|] == w by {
      if |ws| > 1 {
        JoinFirst(ws);
      }
    }
    InnerNoMatch(s, i, w, ks);
    if IsWordChar(w[0]) {
      assert s[i] == w[0];
      if MatchLen(s, i, PhrasePattern(ks)).Some? {
        PhraseAligned(s, pre, ws, ks);
      }
    }
  }

  /**
   * No match starts after the first character of a word, nor anywhere in a token of
   * non-word characters.
   */
  lemma {:induction false} InnerNoMatch(s: string, i: nat, w: string, ks: seq<string>)
    requires Token(w) && Phrase(ks) && i + |w| <= |s| && s[i..i + |w|] == w
    ensures forall j :: i < j < i + |w| ==> MatchLen(s, j, PhrasePattern(ks)).None?
    ensures !IsWordChar(w[0]) ==> MatchLen(s, i, PhrasePattern(ks)).None?
  {
    forall j | i <= j < i + |w| && (j > i || !IsWordChar(w[0]))
      ensures MatchLen(s, j, PhrasePattern(ks)).None?
    {
      assert s[j] == w[j - i];
      if !IsWordChar(s[j]) {
        NoMatchOffWord(s, j, ks);
      } else {
        assert s[j - 1] == w[j - 1 - i];
        assert !Boundary(s, j);
      }
    }
  }

  // ---------------------------------------------------------------------------------------
  // Tables of phrases
  // ---------------------------------------------------------------------------------------

  /** Replacement keeps the text made of tokens when the replacement is a token. */
  lemma {:induction false} SubstTokens(ws: seq<string>, ks: seq<string>, v: string)
    requires Tokens(ws) && ks != [] && Token(v)
    ensures Tokens(SubstPhrase(ws, ks, v))
    decreases |ws|
  {
    if ws != [] {
      var m := if StartsWithPhrase(ws, ks) then |ks| else 1;
      TokensAfter(ws, m);
      SubstTokens(ws[m..], ks, v);
      assert Token(ws[0]);
    }
  }

  /** A table given phrase by phrase: the words of each key, and its replacement token. */
  predicate PhraseTable(pt: seq<(seq<string>, string)>) {
    forall k :: 0 <= k < |pt| ==> Phrase(pt[k].0) && Token(pt[k].1)
  }

  /** The phrase table `pt` is the table `table` with its keys split at the spaces. */
  predicate SplitTable(table: seq<(string, string)>, pt: seq<(seq<string>, string)>) {
    PhraseTable(pt) && |table| == |pt|
    && forall k :: 0 <= k < |pt| ==> table[k] == (Join(" ", pt[k].0), pt[k].1)
  }

  /** The table applied entry by entry, token by token. */
  function SubstTable(ws: seq<string>, pt: seq<(seq<string>, string)>): (r: seq<string>)
    requires PhraseTable(pt)
    ensures |r| <= |ws|
    decreases |pt|
  {
    if pt == [] then ws
    else SubstTable(SubstPhrase(ws, pt[0].0, pt[0].1), pt[1..])
  }

  lemma {:induction false} PhraseTableTail(pt: seq<(seq<string>, string)>)
    requires PhraseTable(pt) && pt != []
    ensures PhraseTable(pt[1..])
  {
    forall k | 0 <= k < |pt[1..]| ensures Phrase(pt[1..][k].0) && Token(pt[1..][k].1) {
      assert pt[1..][k] == pt[k + 1];
    }
  }

  /** A table is applied by applying its first entry and then the rest. */
  lemma {:induction false} SubstTableStep(ws: seq<string>, pt: seq<(seq<string>, string)>)
    requires PhraseTable(pt) && pt != []
    ensures PhraseTable(pt[1..])
    ensures SubstTable(ws, pt) == SubstTable(SubstPhrase(ws, pt[0].0, pt[0].1), pt[1..])
  {
    PhraseTableTail(pt);
  }

  /** Applying a table to the single-spaced join of tokens is applying it token by token. */
  lemma {:induction false} ApplyTableTokens(ws: seq<string>, table: seq<(string, string)>,
                                            pt: seq<(seq<string>, string)>)
    requires Tokens(ws) && SplitTable(table, pt)
    ensures KeysNonEmpty(table)
    ensures ApplyTable(Join(" ", ws), table) == Join(" ", SubstTable(ws, pt))
    decreases |pt|
  {
    forall k | 0 <= k < |table| ensures table[k].0 != [] {
      PhraseEnds(pt[k].0);
    }
    if pt != [] {
      var ks := pt[0].0;
      var v := pt[0].1;
      ReplacePhrase(ws, ks, v);
      SubstTokens(ws, ks, v);
      assert SplitTable(table[1..], pt[1..]) by {
        forall k | 0 <= k < |pt[1..]|
          ensures Phrase(pt[1..][k].0) && Token(pt[1..][k].1)
          ensures table[1..][k] == (Join(" ", pt[1..][k].0), pt[1..][k].1)
        {
          assert pt[1..][k] == pt[k + 1] && table[1..][k] == table[k + 1];
        }
      }
      ApplyTableTokens(SubstPhrase(ws, ks, v), table[1..], pt[1..]);
    }
  }

  /** Tokens after the replacement of a table's phrases by tokens are still tokens. */
  lemma {:induction false} SubstTableTokens(ws: seq<string>, pt: seq<(seq<string>, string)>)
    requires Tokens(ws) && PhraseTable(pt)
    ensures Tokens(SubstTable(ws, pt))
    decreases |pt|
  {
    if pt != [] {
      SubstTokens(ws, pt[0].0, pt[0].1);
      PhraseTableTail(pt);
      SubstTableTokens(SubstPhrase(ws, pt[0].0, pt[0].1), pt[1..]);
    }
  }

  /** Where no word equals the phrase's first word, nothing is replaced. */
  lemma {:induction false} SubstPhraseMiss(ws: seq<string>, ks: seq<string>, v: string)
    requires ks != [] && forall i :: 0 <= i < |ws| ==> !FoldEq(ws[i], ks[0])
    ensures SubstPhrase(ws, ks, v) == ws
    decreases |ws|
  {
    if ws != [] {
      assert !FoldEq(ws[0], ks[0]);
      assert !StartsWithPhrase(ws, ks);
      forall i | 0 <= i < |ws[1..]| ensures !FoldEq(ws[1..][i], ks[0]) {
        assert ws[1..][i] == ws[i + 1];
      }
      SubstPhraseMiss(ws[1..], ks, v);
    }
  }

  /** Where no word equals the first word of any phrase of the table, nothing is replaced. */
  lemma {:induction false} SubstTableMiss(ws: seq<string>, pt: seq<(seq<string>, string)>)
    requires PhraseTable(pt)
    requires forall k, i :: 0 <= k < |pt| && 0 <= i < |ws| ==> !FoldEq(ws[i], pt[k].0[0])
    ensures SubstTable(ws, pt) == ws
    decreases |pt|
  {
    if pt != [] {
      SubstPhraseMiss(ws, pt[0].0, pt[0].1);
      PhraseTableTail(pt);
      forall k, i | 0 <= k < |pt[1..]| && 0 <= i < |ws| ensures !FoldEq(ws[i], pt[1..][k].0[0]) {
        assert pt[1..][k] == pt[k + 1];
      }
      SubstTableMiss(ws, pt[1..]);
    }
  }

  // ---------------------------------------------------------------------------------------
  // Tables of single words
  // ---------------------------------------------------------------------------------------

  /** Every key of the table is one word. */
  predicate OneWordKeys(pt: seq<(seq<string>, string)>) {
    forall k :: 0 <= k < |pt| ==> |pt[k].0| == 1
  }

  /** No replacement equals any key up to case, so a replaced word is never replaced again. */
  predicate ValuesAreNotKeys(pt: seq<(seq<string>, string)>)
    requires OneWordKeys(pt)
  {
    forall j, k :: 0 <= j < |pt| && 0 <= k < |pt| ==> !FoldEq(pt[j].1, pt[k].0[0])
  }

  /** The replacement of the first entry whose key equals `w` up to case; `w` when there is none. */
  function Lookup(w: string, pt: seq<(seq<string>, string)>): (r: string)
    requires OneWordKeys(pt)
    ensures (forall k :: 0 <= k < |pt| ==> !FoldEq(w, pt[k].0[0])) ==> r == w
    ensures forall k :: (0 <= k < |pt| && FoldEq(w, pt[k].0[0]) &&
                          forall i :: 0 <= i < k ==> !FoldEq(w, pt[i].0[0])) ==> r == pt[k].1
    decreases |pt|
  {
    if pt == [] then w
    else if FoldEq(w, pt[0].0[0]) then pt[0].1
    else
      assert forall k :: 1 <= k < |pt| ==> pt[k] == pt[1..][k - 1];
      Lookup(w, pt[1..])
  }

  /** Each word looked up in the table. */
  function LookupAll(ws: seq<string>, pt: seq<(seq<string>, string)>): (r: seq<string>)
    requires OneWordKeys(pt)
    ensures |r| == |ws| && forall k :: 0 <= k < |ws| ==> r[k] == Lookup(ws[k], pt)
  {
    seq(|ws|, k requires 0 <= k < |ws| => Lookup(ws[k], pt))
  }

  /** Replacing a one-word phrase changes exactly the words equal to it up to case. */
  lemma {:induction false} SubstOneWord(ws: seq<string>, key: string, v: string)
    ensures |SubstPhrase(ws, [key], v)| == |ws|
    ensures forall k :: 0 <= k < |ws| ==>
              SubstPhrase(ws, [key], v)[k] == (if FoldEq(ws[k], key) then v else ws[k])
    decreases |ws|
  {
    if ws != [] {
      assert StartsWithPhrase(ws, [key]) <==> FoldEq(ws[0], key);
      SubstOneWord(ws[1..], key, v);
      var r := SubstPhrase(ws, [key], v);
      assert r == [if FoldEq(ws[0], key) then v else ws[0]] + SubstPhrase(ws[1..], [key], v);
      forall k | 1 <= k < |ws|
        ensures r[k] == (if FoldEq(ws[k], key) then v else ws[k])
      {
        assert ws[k] == ws[1..][k - 1];
      }
    }
  }

  /**
   * A table of one-word keys whose replacements are not keys, applied entry by entry, replaces
   * every word by its first match in the table.
   */
  lemma {:induction false} SubstTableIsLookup(ws: seq<string>, pt: seq<(seq<string>, string)>)
    requires PhraseTable(pt) && OneWordKeys(pt) && ValuesAreNotKeys(pt)
    ensures SubstTable(ws, pt) == LookupAll(ws, pt)
    decreases |pt|
  {
    if pt != [] {
      var key := pt[0].0[0];
      var v := pt[0].1;
      var tail := pt[1..];
      assert pt[0].0 == [key];
      var ws1 := SubstPhrase(ws, [key], v);
      SubstOneWord(ws, key, v);
      PhraseTableTail(pt);
      assert OneWordKeys(tail) && ValuesAreNotKeys(tail) by {
        forall k | 0 <= k < |tail| ensures tail[k] == pt[k + 1] {
        }
      }
      SubstTableIsLookup(ws1, tail);
      forall k | 0 <= k < |ws| ensures Lookup(ws1[k], tail) == Lookup(ws[k], pt) {
        if FoldEq(ws[k], key) {
          LookupValue(pt, tail);
        }
      }
    }
  }

  /** The first entry's replacement is not found again in the rest of the table. */
  lemma {:induction false} LookupValue(pt: seq<(seq<string>, string)>, tail: seq<(seq<string>, string)>)
    requires OneWordKeys(pt) && ValuesAreNotKeys(pt) && pt != [] && tail == pt[1..]
    ensures OneWordKeys(tail) && Lookup(pt[0].1, tail) == pt[0].1
  {
    forall k | 0 <= k < |tail| ensures |tail[k].0| == 1 && !FoldEq(pt[0].1, tail[k].0[0]) {
      assert tail[k] == pt[k + 1];
    }
  }

  // ---------------------------------------------------------------------------------------
  // Words that plainly differ from every key
  // ---------------------------------------------------------------------------------------

  /** Up to case, `w` and `key` differ in length, in their first letter or in their second. */
  predicate Differs(w: string, key: string) {
    || |w| != |key|
    || (w != [] && Lower(w[0]) != Lower(key[0]))
    || (|w| > 1 && |key| > 1 && Lower(w[1]) != Lower(key[1]))
  }

  /** A word that plainly differs from every key is looked up as itself. */
  lemma {:induction false} LookupByDiffers(w: string, pt: seq<(seq<string>, string)>)
    requires OneWordKeys(pt) && forall k :: 0 <= k < |pt| ==> Differs(w, pt[k].0[0])
    ensures Lookup(w, pt) == w
  {
    forall k | 0 <= k < |pt| ensures !FoldEq(w, pt[k].0[0]) {
      assert Differs(w, pt[k].0[0]);
    }
  }

  lemma {:induction false} LookupAllByDiffers(ws: seq<string>, pt: seq<(seq<string>, string)>)
    requires OneWordKeys(pt)
    requires forall i, k :: 0 <= i < |ws| && 0 <= k < |pt| ==> Differs(ws[i], pt[k].0[0])
    ensures LookupAll(ws, pt) == ws
  {
    forall i | 0 <= i < |ws| ensures LookupAll(ws, pt)[i] == ws[i] {
      LookupByDiffers(ws[i], pt);
    }
  }

  /** Tokens that plainly differ from the first word of every phrase are left as they are. */
  lemma {:induction false} SubstTableByDiffers(ws: seq<string>, pt: seq<(seq<string>, string)>)
    requires PhraseTable(pt)
    requires forall i, k :: 0 <= i < |ws| && 0 <= k < |pt| ==> Differs(ws[i], pt[k].0[0])
    ensures SubstTable(ws, pt) == ws
  {
    forall k, i | 0 <= k < |pt| && 0 <= i < |ws| ensures !FoldEq(ws[i], pt[k].0[0]) {
      assert Differs(ws[i], pt[k].0[0]);
    }
    SubstTableMiss(ws, pt);
  }

  /** Three words looked up one by one. */
  lemma {:induction false} LookupAllThree(ws: seq<string>, pt: seq<(seq<string>, string)>)
    requires OneWordKeys(pt) && |ws| == 3
    ensures LookupAll(ws, pt) == [Lookup(ws[0], pt), Lookup(ws[1], pt), Lookup(ws[2], pt)]
  {
  }

  // ---------------------------------------------------------------------------------------
  // Texts of words
  // ---------------------------------------------------------------------------------------

  /** Words of characters of a class that holds the space join to a text of that class. */
  lemma {:induction false} JoinKeeps(ws: seq<string>, keep: char -> bool)
    requires keep(' ') && forall k, j :: 0 <= k < |ws| && 0 <= j < |ws[k]| ==> keep(ws[k][j])
    ensures forall j :: 0 <= j < |Join(" ", ws)| ==> keep(Join(" ", ws)[j])
    decreases |ws|
  {
    if |ws| > 1 {
      forall k, j | 0 <= k < |ws[1..]| && 0 <= j < |ws[1..][k]| ensures keep(ws[1..][k][j]) {
        assert ws[1..][k] == ws[k + 1];
      }
      JoinKeeps(ws[1..], keep);
      JoinFirst(ws);
    }
  }

  /** Words of word characters joined by single spaces: tokens, and a text of words and spaces. */
  lemma {:induction false} WordText(t: string, ws: seq<string>)
    requires t == Join(" ", ws) && ws != []
    requires forall k :: 0 <= k < |ws| ==> ws[k] != [] && AllWordChars(ws[k])
    ensures Tokens(ws) && t != [] && t[0] == ws[0][0] && IsWordChar(t[0]) && '^' !in t
    ensures forall k :: 0 <= k < |ws| ==> |ws[k]| > 0 && NoSpace(ws[k])
    ensures forall k :: 0 <= k < |t| ==> IsWordChar(t[k]) || t[k] == ' '
  {
    forall k | 0 <= k < |ws| ensures NoSpace(ws[k]) {
      assert AllWordChars(ws[k]);
    }
    JoinKeeps(ws, c => IsWordChar(c) || c == ' ');
    if |ws| > 1 {
      JoinFirst(ws);
    }
  }
}
