/**
 * The client's `MathOptimizer`: a question such as "what is three plus four" is cleaned of
 * its courtesy prefix and of stray characters, number words and operator words become
 * digits and operator symbols, and the resulting text is handed to JavaScript's `eval` only
 * when it consists of digits, `+ - * /`, parentheses, points and spaces.
 *
 * `eval` is a parameter: what it computes, or the error it throws, is not part of this model.
 */
module MathOptimizer {
  import opened Text
  import opened Wrappers
  import opened Rewrite
  import opened StrictMath
  import opened WordRewrite

  // ---------------------------------------------------------------------------------------
  // The courtesy prefix
  // ---------------------------------------------------------------------------------------

  /** The alternatives of `/^(what is|what's|whats|please|can you|please tell me)\s*\/i`. */
  const CourtesyAsWritten: seq<string> :=
    ["what is", "what's", "whats", "please", "can you", "please tell me"]

  /** The same alternatives with "please tell me" tried before its own prefix "please". */
  const Courtesy: seq<string> :=
    ["what is", "what's", "whats", "please tell me", "please", "can you"]

  /**
   * The alternative the regex engine settles on at the start of `s`: the first one that `s`
   * begins with, up to ASCII case. There is no `\b`, so "whatsoever" begins with "whats".
   */
  function FirstPrefix(s: string, alts: seq<string>): (r: Option<nat>)
    ensures r.Some? ==> r.value < |alts| && FoldEqAt(s, 0, alts[r.value])
    decreases |alts|
  {
    if alts == [] then None
    else if FoldEqAt(s, 0, alts[0]) then Some(0)
    else
      match FirstPrefix(s, alts[1..])
      case None => None
      case Some(k) => Some(k + 1)
  }

  /** The chosen alternative is the first one `s` begins with; with none chosen, it begins with none. */
  lemma {:induction false} FirstPrefixFirst(s: string, alts: seq<string>)
    ensures FirstPrefix(s, alts).Some? ==>
              forall k :: 0 <= k < FirstPrefix(s, alts).value ==> !FoldEqAt(s, 0, alts[k])
    ensures FirstPrefix(s, alts).None? ==> forall k :: 0 <= k < |alts| ==> !FoldEqAt(s, 0, alts[k])
    decreases |alts|
  {
    if alts != [] && !FoldEqAt(s, 0, alts[0]) {
      FirstPrefixFirst(s, alts[1..]);
      forall k | 1 <= k < |alts| ensures alts[k] == alts[1..][k - 1] {
      }
    }
  }

  /** The first alternative `s` begins with is the one chosen. */
  lemma {:induction false} FirstPrefixIs(s: string, alts: seq<string>, k: nat)
    requires k < |alts| && FoldEqAt(s, 0, alts[k])
    requires forall j :: 0 <= j < k ==> !FoldEqAt(s, 0, alts[j])
    ensures FirstPrefix(s, alts) == Some(k)
    decreases k
  {
    if k > 0 {
      FirstPrefixIs(s, alts[1..], k - 1);
    }
  }

  /** With no alternative at the start of `s`, none is chosen. */
  lemma {:induction false} FirstPrefixNone(s: string, alts: seq<string>)
    requires forall j :: 0 <= j < |alts| ==> !FoldEqAt(s, 0, alts[j])
    ensures FirstPrefix(s, alts).None?
    decreases |alts|
  {
    if alts != [] {
      FirstPrefixNone(s, alts[1..]);
    }
  }

  /**
   * `s.replace(/^(a1|...|an)\s*\/i, '')`: the chosen alternative and the whitespace after it
   * are removed; without a matching alternative the text is left as it is.
   */
  function StripPrefix(s: string, alts: seq<string>): (r: string)
    ensures |r| <= |s|
    ensures FirstPrefix(s, alts).None? ==> r == s
    ensures FirstPrefix(s, alts).Some? ==> |r| + |alts[FirstPrefix(s, alts).value]| <= |s|
  {
    match FirstPrefix(s, alts)
    case None => s
    case Some(k) => SkipSpace(s[|alts[k]|..])
  }

  /** What is removed is exactly the chosen alternative's text and the whitespace that follows. */
  lemma {:induction false} StripPrefixOf(s: string, alts: seq<string>, k: nat, sp: string, t: string)
    requires FirstPrefix(s, alts) == Some(k) && k < |alts|
    requires s[|alts[k]|..] == sp + t && AllSpace(sp) && !StartsWs(t)
    ensures StripPrefix(s, alts) == t
  {
    SkipSpaceOf(sp, t);
  }

  /** When every alternative begins with a letter, text that does not is left alone. */
  lemma {:induction false} CourtesyStartsWithLetter(s: string, alts: seq<string>)
    requires s != [] && !IsLetter(s[0])
    requires forall k :: 0 <= k < |alts| ==> alts[k] != [] && IsLetter(alts[k][0])
    ensures FirstPrefix(s, alts).None?
  {
    forall k | 0 <= k < |alts| ensures !FoldEqAt(s, 0, alts[k]) {
      LowerKeepsLetter(s[0]);
      LowerKeepsLetter(alts[k][0]);
    }
    FirstPrefixNone(s, alts);
  }

  lemma {:induction false} LowerKeepsLetter(c: char)
    ensures IsLetter(Lower(c)) == IsLetter(c)
  {
  }

  lemma {:induction false} CourtesyLetters()
    ensures forall k :: 0 <= k < |Courtesy| ==> Courtesy[k] != [] && IsLetter(Courtesy[k][0])
    ensures forall k :: 0 <= k < |CourtesyAsWritten| ==>
              CourtesyAsWritten[k] != [] && IsLetter(CourtesyAsWritten[k][0])
  {
  }

  // ---------------------------------------------------------------------------------------
  // Character filter
  // ---------------------------------------------------------------------------------------

  /** The characters `/[^\w\s+\-*\/^()]/g` leaves in place. */
  predicate KeptAsWritten(c: char) {
    IsWordChar(c) || IsSpace(c) || IsOpChar(c) || c == '^' || c == '(' || c == ')'
  }

  /** The same class with the decimal point, which the evaluation gate accepts, kept as well. */
  predicate Kept(c: char) {
    KeptAsWritten(c) || c == '.'
  }

  /** `s.replace(/[^...]/g, '')`: the characters `keep` accepts, in their original order. */
  function Filter(s: string, keep: char -> bool): (r: string)
    ensures |r| <= |s|
    decreases |s|
  {
    if s == [] then []
    else if keep(s[0]) then [s[0]] + Filter(s[1..], keep)
    else Filter(s[1..], keep)
  }

  /** The filter's output holds exactly the characters of the input that `keep` accepts. */
  lemma {:induction false} FilterChars(s: string, keep: char -> bool, c: char)
    ensures c in Filter(s, keep) <==> c in s && keep(c)
    decreases |s|
  {
    if s != [] {
      FilterChars(s[1..], keep, c);
      assert s == [s[0]] + s[1..];
    }
  }

  /** Filtering works character by character, so it distributes over concatenation. */
  lemma {:induction false} FilterAppend(a: string, b: string, keep: char -> bool)
    ensures Filter(a + b, keep) == Filter(a, keep) + Filter(b, keep)
    decreases |a|
  {
    if a == [] {
      assert a + b == b;
    } else {
      assert (a + b)[1..] == a[1..] + b;
      FilterAppend(a[1..], b, keep);
    }
  }

  /** Text made of kept characters only comes through unchanged. */
  lemma {:induction false} FilterKeepsAll(s: string, keep: char -> bool)
    requires forall k :: 0 <= k < |s| ==> keep(s[k])
    ensures Filter(s, keep) == s
    decreases |s|
  {
    if s != [] {
      FilterKeepsAll(s[1..], keep);
    }
  }

  /** A character is dropped exactly when it is not kept. */
  lemma {:induction false} FilterSingle(c: char, keep: char -> bool)
    ensures Filter([c], keep) == (if keep(c) then [c] else [])
  {
    assert [c][1..] == [];
  }

  // ---------------------------------------------------------------------------------------
  // cleanInput
  // ---------------------------------------------------------------------------------------

  /**
   * `cleanInput` with a given prefix list and character class: strip the courtesy prefix,
   * drop the characters outside the class, turn every whitespace run into one space and trim.
   */
  function CleanWith(s: string, alts: seq<string>, keep: char -> bool): (r: string)
    requires keep(' ')
    ensures r == Collapse(Filter(StripPrefix(s, alts), keep))
    ensures Collapsed(r)
    ensures forall k :: 0 <= k < |r| ==> keep(r[k])
  {
    var f := Filter(StripPrefix(s, alts), keep);
    var r := SquashAndTrim(f);
    SquashAndTrimIsCollapse(f);
    CollapseSpec(f);
    forall k | 0 <= k < |r| ensures keep(r[k]) {
      SquashAndTrimChars(f, r[k]);
      FilterChars(StripPrefix(s, alts), keep, r[k]);
    }
    r
  }

  /** `cleanInput` as the code writes it. */
  function CleanInputAsWritten(s: string): (r: string)
    ensures Collapsed(r) && forall k :: 0 <= k < |r| ==> KeptAsWritten(r[k])
  {
    CleanWith(s, CourtesyAsWritten, KeptAsWritten)
  }

  /** `cleanInput` with both corrections: the longer prefix first, and the point kept. */
  function CleanInput(s: string): (r: string)
    ensures Collapsed(r) && forall k :: 0 <= k < |r| ==> Kept(r[k])
  {
    CleanWith(s, Courtesy, Kept)
  }

  /** An expression that is already clean and has no courtesy prefix is left as it is. */
  lemma {:induction false} CleanInputFixpoint(e: string)
    requires Collapsed(e) && (forall k :: 0 <= k < |e| ==> Kept(e[k]))
    requires FirstPrefix(e, Courtesy).None?
    ensures CleanInput(e) == e
  {
    FilterKeepsAll(e, Kept);
    CollapseFixpoint(e);
  }

  /** As written, too, an expression that is already clean and has no courtesy prefix is left as it is. */
  lemma {:induction false} CleanInputAsWrittenFixpoint(e: string)
    requires Collapsed(e) && (forall k :: 0 <= k < |e| ==> KeptAsWritten(e[k]))
    requires FirstPrefix(e, CourtesyAsWritten).None?
    ensures CleanInputAsWritten(e) == e
  {
    FilterKeepsAll(e, KeptAsWritten);
    CollapseFixpoint(e);
  }

  // ---------------------------------------------------------------------------------------
  // The two defects of cleanInput
  // ---------------------------------------------------------------------------------------

  /**
   * As written, "please" is tried before "please tell me" and always matches first, so only
   * "please" and the spaces after it are removed and "tell me" stays in the text.
   */
  lemma {:induction false} PleaseTellMeKept(sp: string, t: string)
    requires AllSpace(sp) && !StartsWs(t)
    ensures StripPrefix("please tell me" + sp + t, CourtesyAsWritten) == "tell me" + sp + t
  {
    var s := "please tell me" + sp + t;
    PleaseTellMePieces(s, sp, t);
    assert FirstPrefix(s, CourtesyAsWritten) == Some(3) by {
      FoldEqOfSlice(s, 0, "please");
      WhQuestionsFirst(CourtesyAsWritten);
      NoWhQuestion(s, CourtesyAsWritten);
      FirstPrefixIs(s, CourtesyAsWritten, 3);
    }
    StripPrefixOf(s, CourtesyAsWritten, 3, " ", "tell me" + sp + t);
  }

  /** With the longer alternative first, the whole phrase and the spaces after it go. */
  lemma {:induction false} PleaseTellMeStripped(sp: string, t: string)
    requires AllSpace(sp) && !StartsWs(t)
    ensures StripPrefix("please tell me" + sp + t, Courtesy) == t
  {
    var s := "please tell me" + sp + t;
    PleaseTellMePieces(s, sp, t);
    assert FirstPrefix(s, Courtesy) == Some(3) by {
      FoldEqOfSlice(s, 0, "please tell me");
      WhQuestionsFirst(Courtesy);
      NoWhQuestion(s, Courtesy);
      FirstPrefixIs(s, Courtesy, 3);
    }
    StripPrefixOf(s, Courtesy, 3, sp, t);
  }

  /** In both lists the three questions come first, and all start with `w`. */
  lemma {:induction false} WhQuestionsFirst(alts: seq<string>)
    requires alts == CourtesyAsWritten || alts == Courtesy
    ensures |alts| > 3 && forall j :: 0 <= j < 3 ==> alts[j] != [] && alts[j][0] == 'w'
  {
  }

  /** Text starting with `p` matches none of the questions. */
  lemma {:induction false} NoWhQuestion(s: string, alts: seq<string>)
    requires s != [] && s[0] == 'p'
    requires |alts| > 3 && forall j :: 0 <= j < 3 ==> alts[j] != [] && alts[j][0] == 'w'
    ensures forall j :: 0 <= j < 3 ==> !FoldEqAt(s, 0, alts[j])
  {
    forall j | 0 <= j < 3 ensures !FoldEqAt(s, 0, alts[j]) {
      assert Lower(s[0]) != Lower(alts[j][0]);
    }
  }

  lemma {:induction false} PleaseTellMePieces(s: string, sp: string, t: string)
    requires s == "please tell me" + sp + t
    ensures s[..6] == "please" && s[6..] == " " + ("tell me" + sp + t)
    ensures s[..14] == "please tell me" && s[14..] == sp + t
  {
  }

  /** As written, the filter drops the decimal point: "1.5" is cleaned to "15". */
  lemma {:induction false} PointDropped(a: string, b: string)
    requires a != [] && AllDigits(a) && AllDigits(b)
    ensures CleanInputAsWritten(a + "." + b) == a + b
  {
    var s := a + "." + b;
    assert StripPrefix(s, CourtesyAsWritten) == s by {
      assert s[0] == a[0];
      CourtesyLetters();
      CourtesyStartsWithLetter(s, CourtesyAsWritten);
    }
    assert Filter(s, KeptAsWritten) == a + b by {
      FilterPoint(a, b);
    }
    assert Collapse(a + b) == a + b by {
      DigitsAppend(a, b);
      DigitsCollapse(a + b);
    }
  }

  lemma {:induction false} FilterPoint(a: string, b: string)
    requires AllDigits(a) && AllDigits(b)
    ensures Filter(a + "." + b, KeptAsWritten) == a + b
  {
    assert Filter(a, KeptAsWritten) == a by {
      DigitsKept(a);
    }
    assert Filter(b, KeptAsWritten) == b by {
      DigitsKept(b);
    }
    assert Filter(".", KeptAsWritten) == [] by {
      FilterSingle('.', KeptAsWritten);
    }
    assert Filter(a + ".", KeptAsWritten) == a by {
      FilterAppend(a, ".", KeptAsWritten);
      assert a + [] == a;
    }
    FilterAppend(a + ".", b, KeptAsWritten);
  }

  lemma {:induction false} DigitsKept(d: string)
    requires AllDigits(d)
    ensures Filter(d, KeptAsWritten) == d
  {
    FilterKeepsAll(d, KeptAsWritten);
  }

  lemma {:induction false} DigitsAppend(a: string, b: string)
    requires AllDigits(a) && AllDigits(b)
    ensures AllDigits(a + b)
  {
    forall k | |a| <= k < |a + b| ensures (a + b)[k] == b[k - |a|] {
    }
  }

  /** With the point kept, a decimal number is cleaned to itself. */
  lemma {:induction false} PointKept(a: string, b: string)
    requires a != [] && AllDigits(a) && AllDigits(b)
    ensures CleanInput(a + "." + b) == a + "." + b
  {
    var s := a + "." + b;
    assert StripPrefix(s, Courtesy) == s by {
      assert s[0] == a[0];
      CourtesyLetters();
      CourtesyStartsWithLetter(s, Courtesy);
    }
    assert forall k :: 0 <= k < |s| ==> Kept(s[k]) by {
      forall k | 0 <= k < |s| ensures Kept(s[k]) {
        if k < |a| {
          assert s[k] == a[k];
        } else if k > |a| {
          assert s[k] == b[k - |a| - 1];
        }
      }
    }
    FilterKeepsAll(s, Kept);
    assert forall k :: 0 <= k < |s| ==> !IsSpace(s[k]);
    NoSpaceCollapse(s);
  }

  lemma {:induction false} DigitsCollapse(d: string)
    requires d != [] && AllDigits(d)
    ensures Collapse(d) == d
  {
    NoSpaceCollapse(d);
  }

  lemma {:induction false} NoSpaceCollapse(w: string)
    requires w != [] && NoSpace(w)
    ensures Collapse(w) == w
  {
    WordsOfWord(w);
  }

  // ---------------------------------------------------------------------------------------
  // Number words and operator words
  // ---------------------------------------------------------------------------------------

  /** `wordToNumber`, in the order `Object.entries` visits it; the numbers as `replace` prints them. */
  const NumberWords: seq<(string, string)> := [
    ("zero", "0"), ("one", "1"), ("two", "2"), ("three", "3"), ("four", "4"), ("five", "5"),
    ("six", "6"), ("seven", "7"), ("eight", "8"), ("nine", "9"), ("ten", "10")
  ]

  /** The operator words the loop of `convertOps` replaces, in table order. */
  const OperatorWords: seq<(string, string)> := [
    ("plus", "+"), ("minus", "-"), ("times", "*"), ("multiplied by", "*"), ("x", "*"),
    ("X", "*"), ("divided by", "/"), ("over", "/")
  ]

  /** The power phrase, replaced after the loop. */
  const PowerWords: seq<(string, string)> := [("to the power of", "**")]

  lemma {:induction false} NumberWordsShape()
    ensures KeysNonEmpty(NumberWords)
    ensures forall k :: 0 <= k < |NumberWords| ==> AllDigits(NumberWords[k].1)
  {
  }

  lemma {:induction false} OperatorWordsShape()
    ensures KeysNonEmpty(OperatorWords) && KeysNonEmpty(PowerWords)
    ensures forall k :: 0 <= k < |OperatorWords| ==>
              |OperatorWords[k].1| == 1 && IsOpChar(OperatorWords[k].1[0])
  {
  }

  /** `convertWordsToNumbers`: each number word, as a whole word and in any case, becomes its digits. */
  function ConvertWordsToNumbers(s: string): (r: string)
    ensures forall c :: c in r ==> c in s || IsDigit(c)
  {
    NumberWordsShape();
    var r := ApplyTable(s, NumberWords);
    forall c | c in r ensures c in s || IsDigit(c) {
      ApplyTableChars(s, NumberWords, c);
      if c !in s {
        var k :| 0 <= k < |NumberWords| && c in NumberWords[k].1;
      }
    }
    r
  }

  /** Text with no number word in it is left as it is. */
  lemma {:induction false} WordsToNumbersIdentity(s: string)
    requires forall k :: 0 <= k < |NumberWords| ==> !HasWord(s, NumberWords[k].0)
    ensures ConvertWordsToNumbers(s) == s
  {
    NumberWordsShape();
    ApplyTableIdentity(s, NumberWords);
  }

  /**
   * `convertOps`: the operator words, then "to the power of", each as a whole word and in any
   * case, then every `^`, become operator symbols. A `^` never survives, so the caret is
   * always read as a power and never as JavaScript's exclusive-or.
   */
  function ConvertOps(s: string): (r: string)
    ensures '^' !in r
    ensures forall c :: c in r ==> c in s || IsOpChar(c)
  {
    OperatorWordsShape();
    var t := ApplyTable(ApplyTable(s, OperatorWords), PowerWords);
    var r := ReplaceAll(t, Exact("^"), "**");
    ReplaceCharGone(t, '^', "**", 0);
    forall c | c in r ensures c in s || IsOpChar(c) {
      ReplaceChars(t, Exact("^"), "**", 0, c);
      assert t[0..] == t;
      if c in t {
        OpsTableChars(s, c);
      }
    }
    r
  }

  lemma {:induction false} OpsTableChars(s: string, c: char)
    requires KeysNonEmpty(OperatorWords) && KeysNonEmpty(PowerWords)
    requires c in ApplyTable(ApplyTable(s, OperatorWords), PowerWords)
    ensures c in s || IsOpChar(c)
  {
    var u := ApplyTable(s, OperatorWords);
    PowerChars(u, c);
    if c in u {
      OperatorChars(s, c);
    }
  }

  lemma {:induction false} PowerChars(u: string, c: char)
    requires KeysNonEmpty(PowerWords)
    requires c in ApplyTable(u, PowerWords)
    ensures c in u || c == '*'
  {
    ApplyTableChars(u, PowerWords, c);
  }

  lemma {:induction false} OperatorChars(s: string, c: char)
    requires KeysNonEmpty(OperatorWords)
    requires c in ApplyTable(s, OperatorWords)
    ensures c in s || IsOpChar(c)
  {
    ApplyTableChars(s, OperatorWords, c);
    if c !in s {
      var k :| 0 <= k < |OperatorWords| && c in OperatorWords[k].1;
      OperatorWordsShape();
      SingleOpChar(OperatorWords[k].1, c);
    }
  }

  lemma {:induction false} SingleOpChar(v: string, c: char)
    requires |v| == 1 && IsOpChar(v[0]) && c in v
    ensures IsOpChar(c)
  {
  }

  /** Text with no operator word, no power phrase and no caret is left as it is. */
  lemma {:induction false} ConvertOpsIdentity(s: string)
    requires forall k :: 0 <= k < |OperatorWords| ==> !HasWord(s, OperatorWords[k].0)
    requires !HasWord(s, PowerWords[0].0) && '^' !in s
    ensures ConvertOps(s) == s
  {
    OperatorWordsShape();
    assert ApplyTable(ApplyTable(s, OperatorWords), PowerWords) == s by {
      ApplyTableIdentity(s, OperatorWords);
      ApplyTableIdentity(s, PowerWords);
    }
    CaretFreeUnchanged(s);
  }

  lemma {:induction false} CaretFreeUnchanged(s: string)
    requires '^' !in s
    ensures ReplaceAll(s, Exact("^"), "**") == s
  {
    forall j | 0 <= j < |s| ensures MatchLen(s, j, Exact("^")).None? {
      assert s[j] != '^';
      if j + 1 <= |s| {
        assert s[j..j + 1][0] == s[j];
      }
    }
    ReplaceNoMatch(s, Exact("^"), "**", 0);
    assert s[0..] == s;
  }

  // ---------------------------------------------------------------------------------------
  // The conversions word by word
  // ---------------------------------------------------------------------------------------

  /** `wordToNumber` with each key as its list of words. */
  const NumberPhrases: seq<(seq<string>, string)> := [
    (["zero"], "0"), (["one"], "1"), (["two"], "2"), (["three"], "3"), (["four"], "4"),
    (["five"], "5"), (["six"], "6"), (["seven"], "7"), (["eight"], "8"), (["nine"], "9"),
    (["ten"], "10")
  ]

  /** The operator table of `convertOps` with each key as its list of words. */
  const OperatorPhrases: seq<(seq<string>, string)> := [
    (["plus"], "+"), (["minus"], "-"), (["times"], "*"), (["multiplied", "by"], "*"),
    (["x"], "*"), (["X"], "*"), (["divided", "by"], "/"), (["over"], "/")
  ]

  const PowerPhrases: seq<(seq<string>, string)> := [(["to", "the", "power", "of"], "**")]

  /** The number table is a table of single words whose digits are never number words. */
  lemma {:induction false} NumberTable()
    ensures SplitTable(NumberWords, NumberPhrases)
    ensures OneWordKeys(NumberPhrases) && ValuesAreNotKeys(NumberPhrases)
  {
    NumberKeys();
    NumberValues();
    forall j, k | 0 <= j < |NumberPhrases| && 0 <= k < |NumberPhrases|
      ensures !FoldEq(NumberPhrases[j].1, NumberPhrases[k].0[0])
    {
      assert |NumberPhrases[j].1| <= 2 < 3 <= |NumberPhrases[k].0[0]|;
    }
  }

  /** Each number word is one word of three letters or more; each value has one or two digits. */
  lemma {:induction false} NumberKeys()
    ensures forall k :: 0 <= k < |NumberPhrases| ==> Phrase(NumberPhrases[k].0)
    ensures forall k :: 0 <= k < |NumberPhrases| ==>
              |NumberPhrases[k].0| == 1 && |NumberPhrases[k].1| <= 2 && |NumberPhrases[k].0[0]| >= 3
  {
  }

  lemma {:induction false} NumberValues()
    ensures forall k :: 0 <= k < |NumberPhrases| ==> Token(NumberPhrases[k].1)
    ensures |NumberWords| == |NumberPhrases|
    ensures forall k :: 0 <= k < |NumberWords| ==>
              NumberWords[k] == (Join(" ", NumberPhrases[k].0), NumberPhrases[k].1)
  {
  }

  lemma {:induction false} OperatorTables()
    ensures SplitTable(OperatorWords, OperatorPhrases) && SplitTable(PowerWords, PowerPhrases)
  {
    OperatorKeys();
    OperatorJoins();
    PowerTable();
  }

  lemma {:induction false} OperatorKeys()
    ensures forall k :: 0 <= k < |OperatorPhrases| ==> Phrase(OperatorPhrases[k].0)
    ensures forall k :: 0 <= k < |OperatorPhrases| ==> Token(OperatorPhrases[k].1)
  {
  }

  lemma {:induction false} OperatorJoins()
    ensures |OperatorWords| == |OperatorPhrases|
    ensures forall k :: 0 <= k < |OperatorWords| ==>
              OperatorWords[k].0 == Join(" ", OperatorPhrases[k].0) &&
              OperatorWords[k].1 == OperatorPhrases[k].1
  {
  }

  lemma {:induction false} PowerTable()
    ensures SplitTable(PowerWords, PowerPhrases)
  {
    var ks := ["to", "the", "power", "of"];
    JoinFirst(ks);
    JoinFirst(ks[1..]);
    JoinFirst(ks[2..]);
    assert Join(" ", ks) == "to the power of";
    assert PowerPhrases[0] == (ks, "**");
    assert PhraseTable(PowerPhrases);
  }

  /**
   * On words separated by single spaces, `convertWordsToNumbers` replaces each word that
   * equals a number word up to case by its digits, and leaves every other word alone.
   */
  lemma {:induction false} NumbersWordByWord(ws: seq<string>)
    requires Tokens(ws)
    ensures ConvertWordsToNumbers(Join(" ", ws)) == Join(" ", LookupAll(ws, NumberPhrases))
  {
    NumberTable();
    ApplyTableTokens(ws, NumberWords, NumberPhrases);
    SubstTableIsLookup(ws, NumberPhrases);
  }

  /** The operator phrases replaced in table order, then the power phrase, on a list of words. */
  function OpsByWords(ws: seq<string>): (r: seq<string>)
    ensures |r| <= |ws|
  {
    OperatorTables();
    SubstTable(SubstTable(ws, OperatorPhrases), PowerPhrases)
  }

  /**
   * On words separated by single spaces and free of carets, `convertOps` replaces the operator
   * phrases in table order, then the power phrase, each as a sequence of whole words.
   */
  lemma {:induction false} OpsWordByWord(ws: seq<string>)
    requires Tokens(ws) && '^' !in Join(" ", ws)
    ensures ConvertOps(Join(" ", ws)) == Join(" ", OpsByWords(ws))
  {
    OperatorTables();
    var ws1 := SubstTable(ws, OperatorPhrases);
    ApplyTableTokens(ws, OperatorWords, OperatorPhrases);
    SubstTableTokens(ws, OperatorPhrases);
    ApplyTableTokens(ws1, PowerWords, PowerPhrases);
    ConvertOpsCaretFree(Join(" ", ws));
  }

  /** Without a caret, `convertOps` is its two table passes and nothing more. */
  lemma {:induction false} ConvertOpsCaretFree(s: string)
    requires '^' !in s
    ensures KeysNonEmpty(OperatorWords) && KeysNonEmpty(PowerWords)
    ensures ConvertOps(s) == ApplyTable(ApplyTable(s, OperatorWords), PowerWords)
  {
    OperatorWordsShape();
    var t := ApplyTable(ApplyTable(s, OperatorWords), PowerWords);
    assert '^' !in t by {
      if '^' in t {
        OpsTableChars(s, '^');
      }
    }
    CaretFreeUnchanged(t);
  }

  // ---------------------------------------------------------------------------------------
  // solveMath
  // ---------------------------------------------------------------------------------------

  /** A character of the gate `/^[\d+\-*\/(). ]+$/`. */
  predicate GateChar(c: char) {
    IsDigit(c) || IsOpChar(c) || c == '(' || c == ')' || c == '.' || c == ' '
  }

  /** The gate: non-empty, and every character in the class. */
  predicate Gate(s: string) {
    s != [] && forall k :: 0 <= k < |s| ==> GateChar(s[k])
  }

  /** `convertOps(convertWordsToNumbers(cleaned))`: the conversions `solveMath` applies after cleaning. */
  function Convert(c: string): (e: string)
    ensures '^' !in e
    ensures forall ch :: ch in e ==> ch in c || IsDigit(ch) || IsOpChar(ch)
  {
    ConvertOps(ConvertWordsToNumbers(c))
  }

  /** The text `solveMath` builds from the user's input before the gate, as the code writes it. */
  function ExpressionAsWritten(input: string): (e: string)
    ensures '^' !in e
  {
    Convert(CleanInputAsWritten(input))
  }

  /** The same text with `cleanInput` corrected. */
  function Expression(input: string): (e: string)
    ensures '^' !in e
  {
    Convert(CleanInput(input))
  }

  /** A whole word that starts with a letter never occurs in text without letters. */
  lemma {:induction false} NoLetterNoWord(s: string, key: string)
    requires key != [] && IsLetter(key[0])
    requires forall k :: 0 <= k < |s| ==> !IsLetter(s[k])
    ensures !HasWord(s, key)
  {
    forall j | 0 <= j < |s| ensures MatchLen(s, j, WordAlt([key])).None? {
      LowerKeepsLetter(s[j]);
      LowerKeepsLetter(key[0]);
      assert !FoldEqAt(s, j, key);
      var alts: seq<string> := [key];
      assert alts[1..] == [];
    }
  }

  /** Every key of the three tables starts with a letter. */
  lemma {:induction false} KeysStartWithLetters()
    ensures forall k :: 0 <= k < |NumberWords| ==> NumberWords[k].0 != [] && IsLetter(NumberWords[k].0[0])
    ensures forall k :: 0 <= k < |OperatorWords| ==>
              OperatorWords[k].0 != [] && IsLetter(OperatorWords[k].0[0])
    ensures PowerWords[0].0 != [] && IsLetter(PowerWords[0].0[0])
  {
  }

  /** Text with no letter and no caret passes the conversions unchanged. */
  lemma {:induction false} ConvertIdentity(c: string)
    requires forall k :: 0 <= k < |c| ==> !IsLetter(c[k]) && c[k] != '^'
    ensures Convert(c) == c
  {
    KeysStartWithLetters();
    forall k | 0 <= k < |NumberWords| ensures !HasWord(c, NumberWords[k].0) {
      NoLetterNoWord(c, NumberWords[k].0);
    }
    WordsToNumbersIdentity(c);
    forall k | 0 <= k < |OperatorWords| ensures !HasWord(c, OperatorWords[k].0) {
      NoLetterNoWord(c, OperatorWords[k].0);
    }
    NoLetterNoWord(c, PowerWords[0].0);
    assert '^' !in c;
    ConvertOpsIdentity(c);
  }

  /**
   * A decimal number reaches `eval` without its point as written ("1.5" is evaluated as 15),
   * and whole with the correction.
   */
  lemma {:induction false} DecimalPoint<V>(a: string, b: string, eval: string -> EvalOutcome<V>)
    requires a != [] && AllDigits(a) && AllDigits(b)
    ensures ExpressionAsWritten(a + "." + b) == a + b && Gate(a + b)
    ensures Expression(a + "." + b) == a + "." + b && Gate(a + "." + b)
    ensures SolveMathAsWritten(a + "." + b, eval) == Solve(a + b, eval)
    ensures SolveMath(a + "." + b, eval) == Solve(a + "." + b, eval)
  {
    var d := a + "." + b;
    DecimalAsWritten(a, b);
    PointKept(a, b);
    DecimalChars(a, b);
    NumberText(d);
  }

  lemma {:induction false} DecimalAsWritten(a: string, b: string)
    requires a != [] && AllDigits(a) && AllDigits(b)
    ensures ExpressionAsWritten(a + "." + b) == a + b && Gate(a + b)
  {
    PointDropped(a, b);
    DigitsAppend(a, b);
    NumberText(a + b);
  }

  lemma {:induction false} DecimalChars(a: string, b: string)
    requires AllDigits(a) && AllDigits(b)
    ensures forall k :: 0 <= k < |a + "." + b| ==> IsDigit((a + "." + b)[k]) || (a + "." + b)[k] == '.'
  {
    var d := a + "." + b;
    forall k | 0 <= k < |d| ensures IsDigit(d[k]) || d[k] == '.' {
      if k < |a| {
        assert d[k] == a[k];
      } else if k > |a| {
        assert d[k] == b[k - |a| - 1];
      }
    }
  }

  /** Digits and points are left alone by the conversions and pass the gate. */
  lemma {:induction false} NumberText(d: string)
    requires d != [] && forall k :: 0 <= k < |d| ==> IsDigit(d[k]) || d[k] == '.'
    ensures Convert(d) == d && Gate(d)
  {
    ConvertIdentity(d);
  }

  /** What `eval` does with a text: produce a value, or throw an error with a message. */
  datatype EvalOutcome<V> = Returned(value: V) | Threw(message: string)

  /** What `solveMath` returns: the value `eval` produced, or an error string. */
  datatype Solution<V> = Evaluated(expr: string, value: V) | Failed(message: string)

  const InvalidExpression: string := "Error: Invalid math expression"

  /** The gate, then `eval` inside `try`/`catch`, on the converted expression `e`. */
  function Solve<V>(e: string, eval: string -> EvalOutcome<V>): (r: Solution<V>)
    ensures r.Evaluated? <==> Gate(e) && eval(e).Returned?
    ensures r.Evaluated? ==> r == Evaluated(e, eval(e).value)
    ensures r.Failed? && r.message != InvalidExpression ==>
              Gate(e) && eval(e).Threw? && r.message == "Error: " + eval(e).message
    ensures !Gate(e) ==> r == Failed(InvalidExpression)
  {
    if Gate(e) then
      match eval(e)
      case Returned(v) => Evaluated(e, v)
      case Threw(m) => Failed("Error: " + m)
    else Failed(InvalidExpression)
  }

  /** `solveMath(userInput)` as written, with JavaScript's `eval` as the parameter `eval`. */
  function SolveMathAsWritten<V>(input: string, eval: string -> EvalOutcome<V>): (r: Solution<V>)
    ensures r.Evaluated? ==> r.expr == ExpressionAsWritten(input) && Gate(r.expr)
    ensures r.Evaluated? ==> eval(r.expr) == Returned(r.value)
    ensures r.Failed? && r.message != InvalidExpression ==>
              Gate(ExpressionAsWritten(input)) && eval(ExpressionAsWritten(input)).Threw? &&
              r.message == "Error: " + eval(ExpressionAsWritten(input)).message
    ensures !Gate(ExpressionAsWritten(input)) ==> r == Failed(InvalidExpression)
  {
    Solve(ExpressionAsWritten(input), eval)
  }

  /** `solveMath(userInput)` with `cleanInput` corrected. */
  function SolveMath<V>(input: string, eval: string -> EvalOutcome<V>): (r: Solution<V>)
    ensures r.Evaluated? ==> r.expr == Expression(input) && Gate(r.expr)
    ensures r.Evaluated? ==> eval(r.expr) == Returned(r.value)
    ensures r.Failed? && r.message != InvalidExpression ==>
              Gate(Expression(input)) && eval(Expression(input)).Threw? &&
              r.message == "Error: " + eval(Expression(input)).message
    ensures !Gate(Expression(input)) ==> r == Failed(InvalidExpression)
  {
    Solve(Expression(input), eval)
  }

  /** A character the pipeline can leave in an expression. */
  predicate PipelineChar(c: char) {
    c != '^' && (IsDigit(c) || IsOpChar(c) || (Kept(c) && (IsSpace(c) ==> c == ' ')))
  }

  lemma {:induction false} GateOnPipelineText(e: string)
    requires forall k :: 0 <= k < |e| ==> PipelineChar(e[k])
    ensures Gate(e) <==> e != [] && forall k :: 0 <= k < |e| ==> !IsLetter(e[k]) && e[k] != '_'
  {
  }

  /** From cleaned text, the conversions only add digits and operators. */
  lemma {:induction false} ConvertChars(c: string)
    requires forall k :: 0 <= k < |c| ==> Kept(c[k]) && (IsSpace(c[k]) ==> c[k] == ' ')
    ensures forall k :: 0 <= k < |Convert(c)| ==> PipelineChar(Convert(c)[k])
  {
    var e := Convert(c);
    forall k | 0 <= k < |e| ensures PipelineChar(e[k]) {
      assert e[k] in e;
      if e[k] in c {
        var j :| 0 <= j < |c| && c[j] == e[k];
      }
    }
  }

  /** The characters an expression can hold: those of the cleaned text, digits and operators. */
  lemma {:induction false} ExpressionChars(input: string)
    ensures forall k :: 0 <= k < |Expression(input)| ==> PipelineChar(Expression(input)[k])
  {
    ConvertChars(CleanInput(input));
  }

  lemma {:induction false} ExpressionCharsAsWritten(input: string)
    ensures forall k :: 0 <= k < |ExpressionAsWritten(input)| ==>
              PipelineChar(ExpressionAsWritten(input)[k]) && ExpressionAsWritten(input)[k] != '.'
  {
    var c := CleanInputAsWritten(input);
    CleanCharsAsWritten(c);
    ConvertChars(c);
    PointNeverAdded(c);
  }

  /** The classes `cleanInput` keeps as written: no decimal point, and no whitespace but spaces. */
  lemma {:induction false} CleanCharsAsWritten(c: string)
    requires Collapsed(c) && forall k :: 0 <= k < |c| ==> KeptAsWritten(c[k])
    ensures forall k :: 0 <= k < |c| ==> Kept(c[k]) && c[k] != '.' && (IsSpace(c[k]) ==> c[k] == ' ')
  {
  }

  /** The conversions never add a decimal point. */
  lemma {:induction false} PointNeverAdded(c: string)
    requires forall k :: 0 <= k < |c| ==> c[k] != '.'
    ensures forall k :: 0 <= k < |Convert(c)| ==> Convert(c)[k] != '.'
  {
    NoPointFrom(c, Convert(c));
  }

  lemma {:induction false} NoPointFrom(c: string, e: string)
    requires forall k :: 0 <= k < |c| ==> c[k] != '.'
    requires forall ch :: ch in e ==> ch in c || IsDigit(ch) || IsOpChar(ch)
    ensures forall k :: 0 <= k < |e| ==> e[k] != '.'
  {
    assert '.' !in c;
    assert '.' !in e;
  }

  /**
   * The gate turns an expression away exactly when a letter or an underscore survived the
   * conversions (or nothing is left): every other character the pipeline can produce is one
   * the gate accepts.
   */
  lemma {:induction false} GateRejectsWords(input: string)
    ensures Gate(Expression(input)) <==>
              Expression(input) != [] &&
              forall k :: 0 <= k < |Expression(input)| ==>
                !IsLetter(Expression(input)[k]) && Expression(input)[k] != '_'
  {
    ExpressionChars(input);
    GateOnPipelineText(Expression(input));
  }

  lemma {:induction false} GateRejectsWordsAsWritten(input: string)
    ensures Gate(ExpressionAsWritten(input)) <==>
              ExpressionAsWritten(input) != [] &&
              forall k :: 0 <= k < |ExpressionAsWritten(input)| ==>
                !IsLetter(ExpressionAsWritten(input)[k]) && ExpressionAsWritten(input)[k] != '_'
  {
    ExpressionCharsAsWritten(input);
    GateOnPipelineText(ExpressionAsWritten(input));
  }

  /** Whatever `eval` does, it is only ever handed text the gate accepts. */
  lemma {:induction false} EvalOnlySeesArithmetic<V>(input: string, eval: string -> EvalOutcome<V>)
    ensures var r := SolveMath(input, eval);
      r.Evaluated? ==> forall k :: 0 <= k < |r.expr| ==> !IsLetter(r.expr[k]) && r.expr[k] != '^'
  {
    if SolveMath(input, eval).Evaluated? {
      GateExcludesLetters(SolveMath(input, eval).expr);
    }
  }

  lemma {:induction false} EvalOnlySeesArithmeticAsWritten<V>(input: string, eval: string -> EvalOutcome<V>)
    ensures var r := SolveMathAsWritten(input, eval);
      r.Evaluated? ==> forall k :: 0 <= k < |r.expr| ==> !IsLetter(r.expr[k]) && r.expr[k] != '^'
  {
    if SolveMathAsWritten(input, eval).Evaluated? {
      GateExcludesLetters(SolveMathAsWritten(input, eval).expr);
    }
  }

  lemma {:induction false} GateExcludesLetters(e: string)
    requires Gate(e)
    ensures forall k :: 0 <= k < |e| ==> !IsLetter(e[k]) && e[k] != '^'
  {
  }

  // ---------------------------------------------------------------------------------------
  // The pipeline on texts of words, and worked examples
  // ---------------------------------------------------------------------------------------

  /**
   * On words separated by single spaces and free of carets, the conversions look every word up
   * in the number table, then replace the operator phrases and the power phrase in the words
   * that result.
   */
  lemma {:induction false} ConvertByWords(ws: seq<string>)
    requires Tokens(ws) && '^' !in Join(" ", ws)
    ensures OneWordKeys(NumberPhrases)
    ensures Convert(Join(" ", ws)) == Join(" ", OpsByWords(LookupAll(ws, NumberPhrases)))
  {
    NumberTable();
    var ns := LookupAll(ws, NumberPhrases);
    NumbersWordByWord(ws);
    SubstTableIsLookup(ws, NumberPhrases);
    SubstTableTokens(ws, NumberPhrases);
    OpsWordByWord(ns);
  }

  /** When the courtesy prefix strips down to single-spaced words of kept characters, cleaning yields those words. */
  lemma {:induction false} CleanToWords(s: string, alts: seq<string>, keep: char -> bool, ws: seq<string>)
    requires keep(' ') && StripPrefix(s, alts) == Join(" ", ws)
    requires forall k :: 0 <= k < |ws| ==> |ws[k]| > 0 && NoSpace(ws[k])
    requires forall k :: 0 <= k < |Join(" ", ws)| ==> keep(Join(" ", ws)[k])
    ensures CleanWith(s, alts, keep) == Join(" ", ws)
  {
    FilterKeepsAll(Join(" ", ws), keep);
    WordsOfJoin(ws);
  }

  /** "what is" and the space after it are stripped from the front of a text. */
  lemma {:induction false} WhatIsStripped(t: string, alts: seq<string>)
    requires alts != [] && alts[0] == "what is" && t != [] && !IsSpace(t[0])
    ensures StripPrefix("what is " + t, alts) == t
  {
    var s := "what is " + t;
    assert s[..7] == "what is" && s[7..] == " " + t;
    FoldEqOfSlice(s, 0, "what is");
    FirstPrefixIs(s, alts, 0);
    StripPrefixOf(s, alts, 0, " ", t);
  }

  /** A text of words that starts with a digit has no courtesy prefix to strip. */
  lemma {:induction false} NoCourtesy(t: string)
    requires t != [] && !IsLetter(t[0])
    ensures StripPrefix(t, Courtesy) == t && StripPrefix(t, CourtesyAsWritten) == t
  {
    CourtesyLetters();
    CourtesyStartsWithLetter(t, Courtesy);
    CourtesyStartsWithLetter(t, CourtesyAsWritten);
  }

  /** "what is three plus four" becomes "3 + 4", which the gate accepts, as written and corrected alike. */
  lemma {:induction false} WhatIsThreePlusFour(t: string)
    requires t == "three plus four"
    ensures Expression("what is " + t) == "3 + 4" && ExpressionAsWritten("what is " + t) == "3 + 4"
    ensures Gate("3 + 4")
  {
    var ws := ["three", "plus", "four"];
    ThreePlusFourJoin(t, ws);
    ThreePlusFourWords(ws);
    CleanWhatIs(t, ws);
    ThreePlusFourConverted(ws);
  }

  /** Both cleanings strip "what is" from the front of single-spaced words of word characters. */
  lemma {:induction false} CleanWhatIs(t: string, ws: seq<string>)
    requires t == Join(" ", ws) && ws != [] && forall k :: 0 <= k < |ws| ==> ws[k] != [] && AllWordChars(ws[k])
    ensures CleanInput("what is " + t) == t && CleanInputAsWritten("what is " + t) == t
  {
    WordText(t, ws);
    WhatIsStripped(t, Courtesy);
    WhatIsStripped(t, CourtesyAsWritten);
    CleanToWords("what is " + t, Courtesy, Kept, ws);
    CleanToWords("what is " + t, CourtesyAsWritten, KeptAsWritten, ws);
  }

  lemma {:induction false} ThreePlusFourConverted(ws: seq<string>)
    requires ws == ["three", "plus", "four"]
    ensures Convert(Join(" ", ws)) == "3 + 4" && Gate("3 + 4")
  {
    ThreePlusFourWords(ws);
    WordText(Join(" ", ws), ws);
    ConvertByWords(ws);
    ThreePlusFourNumbers(ws);
    ThreePlusFourOps();
    SymbolsText(["3", "+", "4"]);
  }

  lemma {:induction false} ThreePlusFourJoin(t: string, ws: seq<string>)
    requires t == "three plus four" && ws == ["three", "plus", "four"]
    ensures t == Join(" ", ws)
  {
    JoinFirst(ws);
    JoinFirst(ws[1..]);
  }

  lemma {:induction false} ThreePlusFourWords(ws: seq<string>)
    requires ws == ["three", "plus", "four"]
    ensures ws != [] && forall k :: 0 <= k < |ws| ==> ws[k] != [] && AllWordChars(ws[k])
  {
  }

  /** "three" and "four" are number words and "plus" is not. */
  lemma {:induction false} ThreePlusFourNumbers(ws: seq<string>)
    requires ws == ["three", "plus", "four"]
    ensures OneWordKeys(NumberPhrases)
    ensures LookupAll(ws, NumberPhrases) == ["3", "plus", "4"]
  {
    NumberKeys();
    ThreeIsNumber();
    FourIsNumber();
    PlusIsNotNumber();
    LookupAllThree(ws, NumberPhrases);
  }

  lemma {:induction false} ThreeIsNumber()
    ensures OneWordKeys(NumberPhrases) && Lookup("three", NumberPhrases) == "3"
  {
    NumberKeys();
    assert NumberPhrases[3] == (["three"], "3");
    assert FoldEq("three", "three");
  }

  lemma {:induction false} FourIsNumber()
    ensures OneWordKeys(NumberPhrases) && Lookup("four", NumberPhrases) == "4"
  {
    NumberKeys();
    forall i | 0 <= i < 4 ensures !FoldEq("four", NumberPhrases[i].0[0]) {
      assert Differs("four", NumberPhrases[i].0[0]);
    }
    assert NumberPhrases[4] == (["four"], "4");
    assert FoldEq("four", "four");
  }

  lemma {:induction false} PlusIsNotNumber()
    ensures OneWordKeys(NumberPhrases) && Lookup("plus", NumberPhrases) == "plus"
  {
    NumberKeys();
    PlusDiffers("plus");
    LookupByDiffers("plus", NumberPhrases);
  }

  lemma {:induction false} PlusDiffers(w: string)
    requires w == "plus"
    ensures forall k :: 0 <= k < |NumberPhrases| ==> Differs(w, NumberPhrases[k].0[0])
  {
  }

  /** In "3 plus 4" only the first operator phrase matches, and the symbols match nothing after it. */
  lemma {:induction false} ThreePlusFourOps()
    ensures OpsByWords(["3", "plus", "4"]) == ["3", "+", "4"]
  {
    OperatorTables();
    var ws := ["3", "plus", "4"];
    var ws1 := ["3", "+", "4"];
    assert OperatorPhrases[0] == (["plus"], "+");
    assert SubstPhrase(ws, ["plus"], "+") == ws1;
    SubstTableStep(ws, OperatorPhrases);
    SymbolsDiffer(ws1);
    SubstTableByDiffers(ws1, OperatorPhrases[1..]);
    SubstTableByDiffers(ws1, PowerPhrases);
  }

  lemma {:induction false} SymbolsDiffer(ws: seq<string>)
    requires ws == ["3", "+", "4"]
    ensures forall i, k :: 0 <= i < |ws| && 0 <= k < |OperatorPhrases[1..]| ==>
              Differs(ws[i], OperatorPhrases[1..][k].0[0])
    ensures forall i, k :: 0 <= i < |ws| && 0 <= k < |PowerPhrases| ==> Differs(ws[i], PowerPhrases[k].0[0])
  {
  }

  lemma {:induction false} SymbolsText(ws: seq<string>)
    requires ws == ["3", "+", "4"]
    ensures Join(" ", ws) == "3 + 4" && Gate("3 + 4")
  {
    JoinFirst(ws);
  }

  /** "5 to the power of 2" becomes "5 ** 2", which the gate accepts, as written and corrected alike. */
  lemma {:induction false} FiveToThePowerOfTwo(t: string)
    requires t == "5 to the power of 2"
    ensures Expression(t) == "5 ** 2" && ExpressionAsWritten(t) == "5 ** 2"
    ensures Gate("5 ** 2")
  {
    var ws := ["5", "to", "the", "power", "of", "2"];
    PowerJoin(t, ws);
    PowerTextWords(ws);
    CleanDigitLed(t, ws);
    PowerConverted(ws);
  }

  /** Both cleanings leave single-spaced words of word characters that start with a digit alone. */
  lemma {:induction false} CleanDigitLed(t: string, ws: seq<string>)
    requires t == Join(" ", ws) && ws != [] && forall k :: 0 <= k < |ws| ==> ws[k] != [] && AllWordChars(ws[k])
    requires IsDigit(ws[0][0])
    ensures CleanInput(t) == t && CleanInputAsWritten(t) == t
  {
    WordText(t, ws);
    NoCourtesy(t);
    CleanToWords(t, Courtesy, Kept, ws);
    CleanToWords(t, CourtesyAsWritten, KeptAsWritten, ws);
  }

  lemma {:induction false} PowerConverted(ws: seq<string>)
    requires ws == ["5", "to", "the", "power", "of", "2"]
    ensures Convert(Join(" ", ws)) == "5 ** 2" && Gate("5 ** 2")
  {
    PowerTextWords(ws);
    WordText(Join(" ", ws), ws);
    ConvertByWords(ws);
    PowerNotNumbers(ws);
    LookupAllByDiffers(ws, NumberPhrases);
    PowerOps(ws);
    PowerSymbols(["5", "**", "2"]);
  }

  lemma {:induction false} PowerJoin(t: string, ws: seq<string>)
    requires t == "5 to the power of 2" && ws == ["5", "to", "the", "power", "of", "2"]
    ensures t == Join(" ", ws)
  {
    JoinFirst(ws);
    JoinFirst(ws[1..]);
    JoinFirst(ws[2..]);
    JoinFirst(ws[3..]);
    JoinFirst(ws[4..]);
  }

  lemma {:induction false} PowerTextWords(ws: seq<string>)
    requires ws == ["5", "to", "the", "power", "of", "2"]
    ensures ws != [] && forall k :: 0 <= k < |ws| ==> ws[k] != [] && AllWordChars(ws[k])
  {
  }

  lemma {:induction false} PowerNotNumbers(ws: seq<string>)
    requires ws == ["5", "to", "the", "power", "of", "2"]
    ensures forall i, k :: 0 <= i < |ws| && 0 <= k < |NumberPhrases| ==> Differs(ws[i], NumberPhrases[k].0[0])
  {
  }

  lemma {:induction false} PowerNotOperators(ws: seq<string>)
    requires ws == ["5", "to", "the", "power", "of", "2"]
    ensures forall i, k :: 0 <= i < |ws| && 0 <= k < |OperatorPhrases| ==>
              Differs(ws[i], OperatorPhrases[k].0[0])
  {
  }

  /** No operator phrase occurs in "5 to the power of 2"; the power phrase does, once. */
  lemma {:induction false} PowerOps(ws: seq<string>)
    requires ws == ["5", "to", "the", "power", "of", "2"]
    ensures OpsByWords(ws) == ["5", "**", "2"]
  {
    OperatorTables();
    PowerNotOperators(ws);
    SubstTableByDiffers(ws, OperatorPhrases);
    SubstTableStep(ws, PowerPhrases);
    PowerPhraseStep(ws);
  }

  lemma {:induction false} PowerPhraseStep(ws: seq<string>)
    requires ws == ["5", "to", "the", "power", "of", "2"]
    ensures SubstPhrase(ws, ["to", "the", "power", "of"], "**") == ["5", "**", "2"]
  {
    var ks := ["to", "the", "power", "of"];
    assert !FoldEq(ws[0], ks[0]);
    assert ws[1..][4..] == ["2"];
    assert StartsWithPhrase(ws[1..], ks) by {
      forall k | 0 <= k < 4 ensures FoldEq(ws[1..][k], ks[k]) {
        assert ws[1..][k] == ks[k];
      }
    }
    assert SubstPhrase(["2"], ks, "**") == ["2"];
  }

  lemma {:induction false} PowerSymbols(ws: seq<string>)
    requires ws == ["5", "**", "2"]
    ensures Join(" ", ws) == "5 ** 2" && Gate("5 ** 2")
  {
    JoinFirst(ws);
  }

  /**
   * As written, "please" is stripped instead of "please tell me", so "tell me" reaches the gate
   * and "please tell me 2 + 2" is turned away whatever `eval` would do; with the longer prefix
   * tried first the same input is evaluated as "2 + 2".
   */
  lemma {:induction false} PleaseTellMeTwoPlusTwo<V>(t: string, eval: string -> EvalOutcome<V>)
    requires t == "2 + 2"
    ensures ExpressionAsWritten("please tell me " + t) == "tell me " + t
    ensures SolveMathAsWritten("please tell me " + t, eval) == Failed(InvalidExpression)
    ensures Expression("please tell me " + t) == t && Gate(t)
    ensures SolveMath("please tell me " + t, eval) == Solve(t, eval)
  {
    var ws := ["tell", "me", "2", "+", "2"];
    var ns := ["2", "+", "2"];
    TellMeText(t, ws, ns);
    TellMeWords(ws);
    TellMeWords(ns);
    TellMeCleanedAsWritten(t, ws);
    TellMeCleaned(t, ns);
    TellMeConverted(ws);
    ConvertIdentity(t);
  }

  /** As written, only "please" and the space after it go. */
  lemma {:induction false} TellMeCleanedAsWritten(t: string, ws: seq<string>)
    requires t != [] && !StartsWs(t) && "tell me " + t == Join(" ", ws)
    requires forall k :: 0 <= k < |ws| ==> ws[k] != [] && NoSpace(ws[k])
    requires forall k, j :: 0 <= k < |ws| && 0 <= j < |ws[k]| ==> IsWordChar(ws[k][j]) || ws[k][j] == '+'
    ensures CleanInputAsWritten("please tell me " + t) == "tell me " + t
  {
    assert "please tell me " + t == "please tell me" + " " + t;
    assert "tell me " + t == "tell me" + " " + t;
    PleaseTellMeKept(" ", t);
    JoinKeeps(ws, c => IsWordChar(c) || c == ' ' || c == '+');
    CleanToWords("please tell me " + t, CourtesyAsWritten, KeptAsWritten, ws);
  }

  /** With the longer prefix first, "please tell me" and the space after it go. */
  lemma {:induction false} TellMeCleaned(t: string, ws: seq<string>)
    requires t != [] && !StartsWs(t) && t == Join(" ", ws)
    requires forall k :: 0 <= k < |ws| ==> ws[k] != [] && NoSpace(ws[k])
    requires forall k, j :: 0 <= k < |ws| && 0 <= j < |ws[k]| ==> IsWordChar(ws[k][j]) || ws[k][j] == '+'
    ensures CleanInput("please tell me " + t) == t
  {
    assert "please tell me " + t == "please tell me" + " " + t;
    PleaseTellMeStripped(" ", t);
    JoinKeeps(ws, c => IsWordChar(c) || c == ' ' || c == '+');
    CleanToWords("please tell me " + t, Courtesy, Kept, ws);
  }

  lemma {:induction false} TellMeText(t: string, ws: seq<string>, ns: seq<string>)
    requires t == "2 + 2" && ws == ["tell", "me", "2", "+", "2"] && ns == ["2", "+", "2"]
    ensures "tell me " + t == Join(" ", ws) && t == Join(" ", ns)
    ensures t != [] && !StartsWs(t) && !Gate("tell me " + t)
    ensures Gate(t) && forall k :: 0 <= k < |t| ==> !IsLetter(t[k]) && t[k] != '^'
  {
    JoinFirst(ws);
    JoinFirst(ws[1..]);
    JoinFirst(ns);
    JoinFirst(ns[1..]);
    assert ("tell me " + t)[0] == 't' && !GateChar('t');
  }

  lemma {:induction false} TellMeWords(ws: seq<string>)
    requires ws == ["tell", "me", "2", "+", "2"] || ws == ["2", "+", "2"]
    ensures Tokens(ws)
    ensures forall k :: 0 <= k < |ws| ==> ws[k] != [] && NoSpace(ws[k])
    ensures forall k, j :: 0 <= k < |ws| && 0 <= j < |ws[k]| ==> IsWordChar(ws[k][j]) || ws[k][j] == '+'
  {
  }

  /** No word of "tell me 2 + 2" is a number word or an operator phrase. */
  lemma {:induction false} TellMeConverted(ws: seq<string>)
    requires ws == ["tell", "me", "2", "+", "2"]
    ensures Convert(Join(" ", ws)) == Join(" ", ws)
  {
    TellMeWords(ws);
    JoinKeeps(ws, c => IsWordChar(c) || c == ' ' || c == '+');
    ConvertByWords(ws);
    TellMeDiffers(ws);
    LookupAllByDiffers(ws, NumberPhrases);
    OperatorTables();
    SubstTableByDiffers(ws, OperatorPhrases);
    SubstTableByDiffers(ws, PowerPhrases);
  }

  lemma {:induction false} TellMeDiffers(ws: seq<string>)
    requires ws == ["tell", "me", "2", "+", "2"]
    ensures forall i, k :: 0 <= i < |ws| && 0 <= k < |NumberPhrases| ==> Differs(ws[i], NumberPhrases[k].0[0])
    ensures forall i, k :: 0 <= i < |ws| && 0 <= k < |OperatorPhrases| ==>
              Differs(ws[i], OperatorPhrases[k].0[0])
    ensures forall i, k :: 0 <= i < |ws| && 0 <= k < |PowerPhrases| ==> Differs(ws[i], PowerPhrases[k].0[0])
  {
  }
}
