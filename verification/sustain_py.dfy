/**
 * The Python `SUSTAIN` class, in its two versions: `application/sustain.py`, which reads
 * its phrase list from a file, converts phrases to contractions and caches replies, and the
 * earlier `sustain.py`, with a fixed phrase list and a canned answer (the members of the
 * earlier version carry the suffix `Basic`). The helpers `trim_response`,
 * `calculate_percentage_saved`, `deep_optimize_response` and `truncate_list` are the same
 * in both.
 *
 * Token counting (tiktoken) and the chat-completion call are parameters: a function from
 * text to its token count, and the provider's answer or error.
 */
module SustainPy {
  import opened Text
  import opened Wrappers
  import opened Rewrite
  import WordRewrite

  // ---------------------------------------------------------------------------------------
  // Constants
  // ---------------------------------------------------------------------------------------

  const ChatModel: string := "gpt-3.5-turbo"
  const ChatMaxTokens: nat := 50
  /** Appended to the prompt by the application version. */
  const PromptSuffix: string := " in <20 words."
  /** Appended to the prompt by the earlier version. */
  const PromptSuffixBasic: string := " in <30 words."
  const MaxResponseWords: nat := 20
  const Ellipsis: string := "..."
  /** The marker that makes `deep_optimize_response` treat a response as a list. */
  const ListMarker: string := "1."
  const ListLimit: nat := 15
  const MaxListItems: nat := 3
  const QuotaError: string := "Error: The API quota has been exceeded. Please contact SUSTAIN."
  const ModelError: string :=
    "Error: The specified model does not exist or you do not have access to it."
  const CannedQuestion: string := "what is sustain?"
  const CannedAnswer: string :=
    "SUSTAIN is a chat application that helps you optimize your questions and responses to "
    + "save time and improve efficiency."

  /** `xs[:n]`. */
  function Take<T>(xs: seq<T>, n: nat): (r: seq<T>)
    ensures |r| <= n && |r| <= |xs|
    ensures |xs| <= n ==> r == xs
    ensures |xs| > n ==> |r| == n
    ensures forall k :: 0 <= k < |r| ==> r[k] == xs[k]
  {
    if |xs| <= n then xs else xs[..n]
  }

  // ---------------------------------------------------------------------------------------
  // The phrase file
  // ---------------------------------------------------------------------------------------

  /** Length of the first line of `s`, its newline included. */
  function LineLen(s: string): (n: nat)
    requires s != []
    ensures 0 < n <= |s|
    ensures forall k :: 0 <= k < n - 1 ==> s[k] != '\n'
    ensures n < |s| ==> s[n - 1] == '\n'
    decreases |s|
  {
    if s[0] == '\n' || |s| == 1 then 1 else 1 + LineLen(s[1..])
  }

  /** `file.readlines()`: the lines, each with its newline; nothing after a final newline. */
  function ReadLines(data: string): (lines: seq<string>)
    ensures forall k :: 0 <= k < |lines| ==> lines[k] != []
    decreases |data|
  {
    if data == [] then []
    else
      var n := LineLen(data);
      [data[..n]] + ReadLines(data[n..])
  }

  function Concat(parts: seq<string>): string {
    if parts == [] then [] else parts[0] + Concat(parts[1..])
  }

  /** The lines put back together are the file. */
  lemma {:induction false} ReadLinesConcat(data: string)
    ensures Concat(ReadLines(data)) == data
    decreases |data|
  {
    if data != [] {
      var n := LineLen(data);
      ReadLinesConcat(data[n..]);
      assert ReadLines(data)[1..] == ReadLines(data[n..]);
      assert data == data[..n] + data[n..];
    }
  }

  /** A line in the file's sense: one newline, at its end, or none for a last line. */
  predicate IsLine(l: string, last: bool) {
    && l != []
    && (forall k :: 0 <= k < |l| - 1 ==> l[k] != '\n')
    && (!last ==> l[|l| - 1] == '\n')
  }

  /** Reading back lines written one after the other gives the same lines. */
  lemma {:induction false} ReadLinesOfConcat(lines: seq<string>)
    requires forall k :: 0 <= k < |lines| ==> IsLine(lines[k], k == |lines| - 1)
    ensures ReadLines(Concat(lines)) == lines
    decreases |lines|
  {
    if lines != [] {
      var l := lines[0];
      var rest := Concat(lines[1..]);
      forall k | 0 <= k < |lines[1..]| ensures IsLine(lines[1..][k], k == |lines[1..]| - 1) {
        assert lines[1..][k] == lines[k + 1];
      }
      ReadLinesOfConcat(lines[1..]);
      assert IsLine(l, |lines| == 1);
      if |lines| == 1 {
        assert rest == [];
      }
      FirstLine(l, rest, |lines| == 1);
      assert (l + rest)[|l|..] == rest;
      assert (l + rest)[..|l|] == l;
    }
  }

  lemma {:induction false} FirstLine(l: string, rest: string, last: bool)
    requires IsLine(l, last) && (last ==> rest == [])
    ensures LineLen(l + rest) == |l|
    decreases |l|
  {
    var s := l + rest;
    if |l| > 1 {
      assert s[0] == l[0] != '\n';
      assert s[1..] == l[1..] + rest;
      assert IsLine(l[1..], last) by {
        forall k | 0 <= k < |l[1..]| - 1 ensures l[1..][k] != '\n' {
          assert l[1..][k] == l[k + 1];
        }
      }
      FirstLine(l[1..], rest, last);
    }
  }

  /** `[line.strip() for line in file.readlines()]`. */
  function PhraseList(data: string): (ps: seq<string>)
    ensures |ps| == |ReadLines(data)|
    ensures forall k :: 0 <= k < |ps| ==> NoEdgeSpace(ps[k])
  {
    TrimAll(ReadLines(data))
  }

  // ---------------------------------------------------------------------------------------
  // Contractions (application version)
  // ---------------------------------------------------------------------------------------

  /** The dictionary of `convert_to_contractions`, in insertion order. */
  const PyContractions: seq<(string, string)> := [
    ("do not", "don't"), ("i am", "i'm"), ("you are", "you're"), ("we are", "we're"),
    ("they are", "they're"), ("is not", "isn't"), ("are not", "aren't"), ("cannot", "can't"),
    ("could not", "couldn't"), ("would not", "wouldn't"), ("should not", "shouldn't"),
    ("will not", "won't"), ("have not", "haven't"), ("has not", "hasn't"),
    ("had not", "hadn't"), ("it is", "it's"), ("that is", "that's"), ("there is", "there's"),
    ("what is", "what's"), ("who is", "who's"), ("where is", "where's"),
    ("when is", "when's"), ("why is", "why's"), ("how is", "how's")
  ]

  /** A well-formed entry that never lengthens the text it rewrites. */
  predicate ShortEntry(e: (string, string)) {
    WordEntry(e) && |e.1| < |e.0|
  }

  lemma {:induction false} PyContractionsShape()
    ensures KeysNonEmpty(PyContractions)
    ensures forall k :: 0 <= k < |PyContractions| ==> ShortEntry(PyContractions[k])
  {
    forall k | 0 <= k < |PyContractions| ensures ShortEntry(PyContractions[k]) {
      if k < 6 {
        PyEntriesA(k);
      } else if k < 12 {
        PyEntriesB(k);
      } else if k < 18 {
        PyEntriesC(k);
      } else {
        PyEntriesD(k);
      }
    }
  }

  lemma {:induction false} PyEntriesA(k: nat)
    requires k < 6
    ensures ShortEntry(PyContractions[k])
  {
    if k == 0 {} else if k == 1 {} else if k == 2 {} else if k == 3 {} else if k == 4 {} else {}
  }

  lemma {:induction false} PyEntriesB(k: nat)
    requires 6 <= k < 12
    ensures ShortEntry(PyContractions[k])
  {
    if k == 6 {} else if k == 7 {} else if k == 8 {} else if k == 9 {} else if k == 10 {} else {}
  }

  lemma {:induction false} PyEntriesC(k: nat)
    requires 12 <= k < 18
    ensures ShortEntry(PyContractions[k])
  {
    if k == 12 {} else if k == 13 {} else if k == 14 {} else if k == 15 {} else if k == 16 {} else {}
  }

  lemma {:induction false} PyEntriesD(k: nat)
    requires 18 <= k < 24
    ensures ShortEntry(PyContractions[k])
  {
    if k == 18 {} else if k == 19 {} else if k == 20 {} else if k == 21 {} else if k == 22 {} else {}
  }

  /**
   * `convert_to_contractions`: for each entry, `re.sub(r'\b' + phrase + r'\b', contraction,
   * text, flags=re.IGNORECASE)`. No contraction is longer than its phrase, so the text
   * never grows, and no whitespace run is added.
   */
  function ConvertToContractions(s: string): (r: string)
    ensures |r| <= |s|
    ensures Runs(r) <= Runs(s)
  {
    PyTableFacts(s);
    ApplyTable(s, PyContractions)
  }

  lemma {:induction false} PyTableFacts(s: string)
    ensures KeysNonEmpty(PyContractions)
    ensures |ApplyTable(s, PyContractions)| <= |s|
    ensures Runs(ApplyTable(s, PyContractions)) <= Runs(s)
  {
    PyShort();
    ApplyTableShrinks(s, PyContractions);
    PySolid();
    ApplyTableKeepsRuns(s, PyContractions);
  }

  lemma {:induction false} PyShort()
    ensures KeysNonEmpty(PyContractions)
    ensures forall k :: 0 <= k < |PyContractions| ==> |PyContractions[k].1| <= |PyContractions[k].0|
  {
    PyContractionsShape();
  }

  lemma {:induction false} PySolid()
    ensures KeysNonEmpty(PyContractions)
    ensures forall k :: 0 <= k < |PyContractions| ==>
      SolidStart(PyContractions[k].0) && NoSpace(PyContractions[k].1)
  {
    PyContractionsShape();
  }

  /** Text in which no phrase of the table occurs as a whole word is left as it is. */
  lemma {:induction false} ContractionsIdentityPy(s: string)
    requires forall k :: 0 <= k < |PyContractions| ==> !HasWord(s, PyContractions[k].0)
    ensures ConvertToContractions(s) == s
  {
    PyContractionsShape();
    ApplyTableIdentity(s, PyContractions);
  }

  /** Every character of the result comes from the text or from a contraction. */
  lemma {:induction false} ContractionsCharsPy(s: string, c: char)
    requires c in ConvertToContractions(s)
    ensures c in s || exists k :: 0 <= k < |PyContractions| && c in PyContractions[k].1
  {
    PyContractionsShape();
    ApplyTableChars(s, PyContractions, c);
  }

  /** "DO NOT" becomes "don't": the first entry matches whole-word and up to case, and no later one touches the result. */
  lemma {:induction false} PyContractionExample()
    ensures ConvertToContractions("DO NOT") == "don't"
  {
    PyContractionsSplit();
    PyExampleEntry();
    PyExampleAfter();
    ComposeTable("DO NOT", "don't", PyContractions, [], [("do not", "don't")],
                 PyContractionsTail1 + (PyContractionsTail2 + PyContractionsTail3));
  }

  const PyContractionsTail1: seq<(string, string)> :=
    [("i am", "i'm"), ("you are", "you're"), ("we are", "we're"), ("they are", "they're"),
     ("is not", "isn't"), ("are not", "aren't"), ("cannot", "can't"), ("could not", "couldn't")]
  const PyContractionsTail2: seq<(string, string)> :=
    [("would not", "wouldn't"), ("should not", "shouldn't"), ("will not", "won't"),
     ("have not", "haven't"), ("has not", "hasn't"), ("had not", "hadn't"), ("it is", "it's"),
     ("that is", "that's")]
  const PyContractionsTail3: seq<(string, string)> :=
    [("there is", "there's"), ("what is", "what's"), ("who is", "who's"), ("where is", "where's"),
     ("when is", "when's"), ("why is", "why's"), ("how is", "how's")]

  lemma {:induction false} PyContractionsSplit()
    ensures PyContractions == [] + ([("do not", "don't")]
      + (PyContractionsTail1 + (PyContractionsTail2 + PyContractionsTail3)))
  {
  }

  lemma {:induction false} PyExampleEntry()
    ensures ApplyTable("DO NOT", [("do not", "don't")]) == "don't"
  {
    assert MatchLen("DO NOT", 0, WordAlt(["do not"])) == Some(6);
  }

  lemma {:induction false} PyExampleAfter()
    ensures KeysNonEmpty(PyContractionsTail1 + (PyContractionsTail2 + PyContractionsTail3))
    ensures ApplyTable("don't", PyContractionsTail1 + (PyContractionsTail2 + PyContractionsTail3))
            == "don't"
  {
    PyExampleAfter1();
    PyExampleAfter2();
    PyExampleAfter3();
    ComposeUnchanged("don't", PyContractionsTail1, PyContractionsTail2, PyContractionsTail3);
  }

  lemma {:induction false} PyExampleAfter1()
    ensures KeysNonEmpty(PyContractionsTail1) && ApplyTable("don't", PyContractionsTail1) == "don't"
  {
    TablePlainlyAbsent("don't", PyContractionsTail1);
    TableAbsentIdentity("don't", PyContractionsTail1);
  }

  lemma {:induction false} PyExampleAfter2()
    ensures KeysNonEmpty(PyContractionsTail2) && ApplyTable("don't", PyContractionsTail2) == "don't"
  {
    TablePlainlyAbsent("don't", PyContractionsTail2);
    TableAbsentIdentity("don't", PyContractionsTail2);
  }

  lemma {:induction false} PyExampleAfter3()
    ensures KeysNonEmpty(PyContractionsTail3) && ApplyTable("don't", PyContractionsTail3) == "don't"
  {
    TablePlainlyAbsent("don't", PyContractionsTail3);
    TableAbsentIdentity("don't", PyContractionsTail3);
  }

  // ---------------------------------------------------------------------------------------
  // optimize_text
  // ---------------------------------------------------------------------------------------

  /** Normalised text is its own `strip()`. */
  lemma {:induction false} TrimCollapsed(s: string)
    requires Collapsed(s)
    ensures Trim(s) == s
  {
    TrimUnique([], s, []);
    assert [] + s + [] == s;
  }

  /** `' '.join(text.split()).strip()`. */
  function Normalise(s: string): (r: string)
    ensures Collapsed(r) && Words(r) == Words(s)
  {
    CollapseSpec(s);
    TrimCollapsed(Collapse(s));
    Trim(Collapse(s))
  }

  /**
   * `optimize_text` of the application version: every phrase of the file is removed as a
   * literal, in file order, then contractions, then whitespace normalisation.
   */
  function OptimizeText(text: string, phrases: seq<string>): (r: string)
    ensures Collapsed(r)
    ensures Words(r) == Words(ConvertToContractions(RemoveEach(text, phrases)))
  {
    Normalise(ConvertToContractions(RemoveEach(text, phrases)))
  }

  /**
   * Text holding none of the phrases and none of the contraction phrases only has its
   * whitespace normalised; normalised text of that kind comes back unchanged.
   */
  lemma {:induction false} OptimizeTextIdentity(text: string, phrases: seq<string>)
    requires forall k :: 0 <= k < |phrases| ==> !Contains(text, phrases[k])
    requires forall k :: 0 <= k < |PyContractions| ==> !HasWord(text, PyContractions[k].0)
    ensures OptimizeText(text, phrases) == Collapse(text)
    ensures Collapsed(text) ==> OptimizeText(text, phrases) == text
  {
    assert RemoveEach(text, phrases) == text by {
      RemoveNothing(text, phrases);
    }
    assert ConvertToContractions(text) == text by {
      ContractionsIdentityPy(text);
    }
    NormaliseCollapse(text);
  }

  /** `Normalise` is `Collapse`, and leaves normalised text alone. */
  lemma {:induction false} NormaliseCollapse(text: string)
    ensures Normalise(text) == Collapse(text)
    ensures Collapsed(text) ==> Normalise(text) == text
  {
    CollapseSpec(text);
    TrimCollapsed(Collapse(text));
    CollapseFixpoint(text);
  }

  /** The fixed list of `optimize_text` in the earlier version. */
  const BasicPhrases: seq<string> := [
    "Hello", "please", "Thank you", "thanks", "Can you", "could you", "would you", "just",
    "kindly", "explain", "to me", "tell me", "about", "differences between", "thank you",
    "the differences", "in order to", "with regard to"
  ]

  /** `optimize_text` of the earlier version: literal removal, then normalisation. */
  function OptimizeTextBasic(text: string): (r: string)
    ensures Collapsed(r)
    ensures Words(r) == Words(RemoveEach(text, BasicPhrases))
  {
    Normalise(RemoveEach(text, BasicPhrases))
  }

  /** Text holding none of the fixed phrases only has its whitespace normalised. */
  lemma {:induction false} OptimizeTextBasicIdentity(text: string)
    requires forall k :: 0 <= k < |BasicPhrases| ==> !Contains(text, BasicPhrases[k])
    ensures OptimizeTextBasic(text) == Collapse(text)
    ensures Collapsed(text) ==> OptimizeTextBasic(text) == text
  {
    RemoveNothing(text, BasicPhrases);
    NormaliseCollapse(text);
  }

  lemma {:induction false} RemoveNothing(text: string, phrases: seq<string>)
    requires forall k :: 0 <= k < |phrases| ==> !Contains(text, phrases[k])
    ensures RemoveEach(text, phrases) == text
  {
  }

  // ---------------------------------------------------------------------------------------
  // trim_response
  // ---------------------------------------------------------------------------------------

  /**
   * `trim_response`: a response of more than twenty words becomes its first twenty words,
   * single-spaced, followed by "..."; a shorter one is returned as it is.
   */
  function TrimResponse(text: string): (r: string)
    ensures |Words(text)| <= MaxResponseWords ==> r == text
    ensures |Words(text)| > MaxResponseWords ==>
      |r| >= |Ellipsis| && r[|r| - |Ellipsis|..] == Ellipsis
      && Collapsed(r[..|r| - |Ellipsis|])
      && Words(r[..|r| - |Ellipsis|]) == Words(text)[..MaxResponseWords]
  {
    var ws := Words(text);
    if |ws| > MaxResponseWords then
      var head := Join(" ", ws[..MaxResponseWords]);
      WordsOfJoin(ws[..MaxResponseWords]);
      JoinCollapsed(ws[..MaxResponseWords]);
      assert (head + Ellipsis)[..|head|] == head;
      head + Ellipsis
    else text
  }

  /** A trimmed response never has more than twenty words: "..." sticks to the last one. */
  lemma {:induction false} TrimResponseWordLimit(text: string)
    ensures |Words(TrimResponse(text))| <= MaxResponseWords
  {
    var ws := Words(text);
    if |ws| > MaxResponseWords {
      var head := ws[..MaxResponseWords];
      var parts := head[..MaxResponseWords - 1] + [head[MaxResponseWords - 1] + Ellipsis];
      JoinAppendLast(" ", head, Ellipsis);
      forall k | 0 <= k < |parts| ensures |parts[k]| > 0 && NoSpace(parts[k]) {
        if k < MaxResponseWords - 1 {
          assert parts[k] == ws[k];
        }
      }
      WordsOfJoin(parts);
    }
  }

  /** Text added after a join sticks to the last part. */
  lemma {:induction false} JoinAppendLast(sep: string, parts: seq<string>, x: string)
    requires |parts| >= 1
    ensures Join(sep, parts) + x == Join(sep, parts[..|parts| - 1] + [parts[|parts| - 1] + x])
    decreases |parts|
  {
    var last := [parts[|parts| - 1] + x];
    if |parts| == 1 {
      assert parts[..0] + last == last;
    } else {
      var tail := parts[1..];
      JoinAppendLast(sep, tail, x);
      var q := parts[..|parts| - 1] + last;
      assert q[0] == parts[0] && q[1..] == tail[..|tail| - 1] + [tail[|tail| - 1] + x];
      JoinRegroup(parts[0], sep, Join(sep, tail), x);
    }
  }

  lemma {:induction false} JoinRegroup(a: string, sep: string, t: string, x: string)
    ensures a + sep + t + x == a + sep + (t + x)
  {
  }

  // ---------------------------------------------------------------------------------------
  // calculate_percentage_saved
  // ---------------------------------------------------------------------------------------

  /**
   * `calculate_percentage_saved(original_tokens, response_tokens)`: 0 for a non-positive
   * original count, a negative response count or a longer response; otherwise the share
   * of the original saved, in percent, capped at 100.
   */
  function CalculatePercentageSaved(original: int, response: int): (p: real)
    ensures 0.0 <= p <= 100.0
    ensures p == 0.0 <==> original <= 0 || response < 0 || response >= original
    ensures p == 100.0 <==> original > 0 && response == 0
    ensures 0 <= response <= original ==> p * original as real == (original - response) as real * 100.0
  {
    if original <= 0 || response < 0 then 0.0
    else
      var saved := original - response;
      if saved < 0 then 0.0
      else
        var percentage := saved as real / original as real * 100.0;
        RatioBelowWhole(saved, original);
        if percentage < 100.0 then percentage else 100.0
  }

  lemma {:induction false} RatioBelowWhole(saved: int, original: int)
    requires 0 <= saved <= original && original > 0
    ensures 0.0 <= saved as real / original as real * 100.0 <= 100.0
    ensures saved as real / original as real * 100.0 == 100.0 <==> saved == original
    ensures saved as real / original as real * 100.0 == 0.0 <==> saved == 0
    ensures saved as real / original as real * 100.0 * original as real == saved as real * 100.0
  {
  }

  /** The longer the response, the smaller the saving. */
  lemma {:induction false} PercentageSavedMonotone(original: int, r1: int, r2: int)
    requires 0 <= r1 <= r2
    ensures CalculatePercentageSaved(original, r2) <= CalculatePercentageSaved(original, r1)
  {
    if 0 < original && r2 < original {
      var o := original as real;
      assert (original - r2) as real <= (original - r1) as real;
      DivideMonotone((original - r2) as real, (original - r1) as real, o);
    }
  }

  lemma {:induction false} DivideMonotone(x: real, y: real, o: real)
    requires x <= y && o > 0.0
    ensures x / o * 100.0 <= y / o * 100.0
  {
  }

  /** `(tokens_saved / original_tokens) * 100 if original_tokens > 0 else 0` in `get_response`. */
  function InputSavings(original: nat, optimized: nat): (p: real)
    ensures original == 0 ==> p == 0.0
    ensures p <= 100.0
    ensures original > 0 ==> (0.0 <= p <==> optimized <= original)
    ensures original > 0 ==> p * original as real == (original as real - optimized as real) * 100.0
  {
    if original > 0 then
      SavingsRatio(original, optimized);
      (original - optimized) as real / original as real * 100.0
    else 0.0
  }

  lemma {:induction false} SavingsRatio(original: nat, optimized: nat)
    requires original > 0
    ensures (original - optimized) as real / original as real * 100.0 <= 100.0
    ensures 0.0 <= (original - optimized) as real / original as real * 100.0 <==> optimized <= original
    ensures (original - optimized) as real / original as real * 100.0 * original as real
            == (original as real - optimized as real) * 100.0
  {
  }

  // ---------------------------------------------------------------------------------------
  // deep_optimize_response
  // ---------------------------------------------------------------------------------------

  const DeepPhrases: seq<string> := [
    "has improved", "better ability to", "compared to", "in terms of", "offers improved",
    "provides", "includes", "while", "and also", "specializes in"
  ]

  /**
   * `deep_optimize_response` as written: the redundant phrases are removed, and a response
   * holding "1." is cut to its first fifteen pieces when split on single spaces, before
   * whitespace is normalised.
   */
  function DeepOptimizeResponseAsWritten(text: string): (r: string)
    ensures Collapsed(r)
    ensures Words(r) <= Words(RemoveEach(text, DeepPhrases))
    ensures !Contains(RemoveEach(text, DeepPhrases), ListMarker) ==>
      Words(r) == Words(RemoveEach(text, DeepPhrases))
  {
    var t := RemoveEach(text, DeepPhrases);
    var cut := if Contains(t, ListMarker) then (CutKeepsWordPrefix(t); ListCut(t)) else t;
    Normalise(cut)
  }

  /** `" ".join(t.split(" ")[:15])`: the first fifteen pieces between single spaces. */
  function ListCut(t: string): string {
    Join(" ", Take(SplitOn(t, ' '), ListLimit))
  }

  /** Cutting on single spaces keeps a leading run of the words: the words of the cut come first. */
  lemma {:induction false} CutKeepsWordPrefix(t: string)
    ensures Words(ListCut(t)) <= Words(t)
  {
    var ps := SplitOn(t, ' ');
    JoinSplitOn(t, ' ');
    assert Join(" ", ps) == t;
    if |ps| > ListLimit {
      var x := Join(" ", ps[..ListLimit]);
      var y := " " + Join(" ", ps[ListLimit..]);
      WordRewrite.JoinSplitAt(ps, ListLimit);
      assert t == x + y;
      assert Take(ps, ListLimit) == ps[..ListLimit];
      WordsAppend(x, y);
    }
  }

  /**
   * As written, the cut does hold a list to fifteen words when the only whitespace in the
   * response is the single space it splits on.
   */
  lemma {:induction false} DeepListLimitAsWritten(text: string)
    requires Contains(RemoveEach(text, DeepPhrases), ListMarker)
    requires forall c :: c in RemoveEach(text, DeepPhrases) && IsSpace(c) ==> c == ' '
    ensures |Words(DeepOptimizeResponseAsWritten(text))| <= ListLimit
  {
    var t := RemoveEach(text, DeepPhrases);
    var all := SplitOn(t, ' ');
    var ps := Take(all, ListLimit);
    forall k | 0 <= k < |ps| ensures NoSpace(ps[k]) {
      forall i | 0 <= i < |ps[k]| ensures !IsSpace(ps[k][i]) {
        assert ps[k][i] == all[k][i];
        SplitOnChars(t, ' ', k, ps[k][i]);
      }
    }
    WordsOfPieces(ps);
  }

  /**
   * `deep_optimize_response` with the list limit counting words, as its comment intends:
   * a list response keeps at most its first fifteen words.
   */
  function DeepOptimizeResponse(text: string): (r: string)
    ensures Collapsed(r)
    ensures Contains(RemoveEach(text, DeepPhrases), ListMarker) ==>
      Words(r) == Take(Words(RemoveEach(text, DeepPhrases)), ListLimit)
    ensures !Contains(RemoveEach(text, DeepPhrases), ListMarker) ==>
      Words(r) == Words(RemoveEach(text, DeepPhrases))
  {
    var t := RemoveEach(text, DeepPhrases);
    if Contains(t, ListMarker) then
      var ws := Take(Words(t), ListLimit);
      WordsOfJoin(ws);
      Normalise(Join(" ", ws))
    else Normalise(t)
  }

  /** The corrected list limit holds: a list response has at most fifteen words. */
  lemma {:induction false} DeepListLimit(text: string)
    requires Contains(RemoveEach(text, DeepPhrases), ListMarker)
    ensures |Words(DeepOptimizeResponse(text))| <= ListLimit
  {
  }

  /** `"\nx"` repeated `n` times: list items on lines of their own. */
  function Items(n: nat): string {
    if n == 0 then [] else "\nx" + Items(n - 1)
  }

  lemma {:induction false} ItemsChars(n: nat)
    ensures forall c :: c in Items(n) ==> c == '\n' || c == 'x'
    decreases n
  {
    if n > 0 {
      ItemsChars(n - 1);
      ItemsStep(n);
    }
  }

  /** A list of sixteen words that holds no single space. */
  function NewlineList(): string {
    ListMarker + Items(ListLimit)
  }

  /**
   * As written, the limit misses a list whose items are on separate lines: splitting on
   * " " gives one piece, and all sixteen words survive. Counting words keeps fifteen.
   */
  lemma {:induction false} NewlineListKept()
    ensures |Words(DeepOptimizeResponseAsWritten(NewlineList()))| == ListLimit + 1
    ensures |Words(DeepOptimizeResponse(NewlineList()))| == ListLimit
  {
    var s := NewlineList();
    NewlineListFacts();
    assert DeepOptimizeResponseAsWritten(s) == Normalise(s) by {
      AsWrittenOnList(s);
    }
    CorrectedOnList(s);
  }

  /** With no phrase, the marker and no single space, the as-written cut changes nothing. */
  lemma {:induction false} AsWrittenOnList(s: string)
    requires RemoveEach(s, DeepPhrases) == s && Contains(s, ListMarker) && ' ' !in s
    ensures DeepOptimizeResponseAsWritten(s) == Normalise(s)
  {
    SplitOnAbsent(s, ' ');
    assert Take(SplitOn(s, ' '), ListLimit) == [s];
  }

  lemma {:induction false} CorrectedOnList(s: string)
    requires RemoveEach(s, DeepPhrases) == s && Contains(s, ListMarker)
    requires |Words(s)| == ListLimit + 1
    ensures |Words(DeepOptimizeResponse(s))| == ListLimit
  {
  }

  /** The newline list: no phrase, the marker, no single space, sixteen words. */
  lemma {:induction false} NewlineListFacts()
    ensures RemoveEach(NewlineList(), DeepPhrases) == NewlineList()
    ensures Contains(NewlineList(), ListMarker)
    ensures ' ' !in NewlineList()
    ensures |Words(NewlineList())| == ListLimit + 1
  {
    NewlineListChars();
    NoPhraseInList();
    MarkerFirst(NewlineList());
    WordsOfList();
  }

  lemma {:induction false} NoPhraseInList()
    ensures RemoveEach(NewlineList(), DeepPhrases) == NewlineList()
  {
    var s := NewlineList();
    NewlineListChars();
    NoDeepPhrase(s);
    RemoveNothing(s, DeepPhrases);
  }

  lemma {:induction false} WordsOfList()
    ensures |Words(NewlineList())| == ListLimit + 1
  {
    WordsOfMarked(ListLimit);
  }

  /** The marker and `n` newline-separated items make `n + 1` words. */
  lemma {:induction false} WordsOfMarked(n: nat)
    requires n > 0
    ensures |Words(ListMarker + Items(n))| == n + 1
  {
    WordsOfItems(n);
    ItemsStep(n);
    WordThenSpace(ListMarker, Items(n));
  }

  lemma {:induction false} MarkerFirst(s: string)
    requires s == ListMarker + Items(ListLimit)
    ensures Contains(s, ListMarker)
  {
    assert s[..|ListMarker|] == ListMarker;
    assert OccursAt(s, ListMarker, 0);
  }

  /** Its characters: digits, the point, newlines and `x`. */
  lemma {:induction false} NewlineListChars()
    ensures forall c :: c in NewlineList() ==> !IsLetter(c) || c == 'x'
    ensures ' ' !in NewlineList()
  {
    ItemsChars(ListLimit);
    forall c | c in NewlineList() ensures (!IsLetter(c) || c == 'x') && c != ' ' {
      if c in Items(ListLimit) {
      } else {
        assert c in ListMarker;
      }
    }
  }

  lemma {:induction false} NoDeepPhrase(s: string)
    requires forall c :: c in s ==> !IsLetter(c) || c == 'x'
    ensures forall k :: 0 <= k < |DeepPhrases| ==> !Contains(s, DeepPhrases[k])
  {
    forall k | 0 <= k < |DeepPhrases| ensures !Contains(s, DeepPhrases[k]) {
      DeepHeads(k);
      HeadAbsent(s, DeepPhrases[k]);
    }
  }

  /** Every phrase starts with a letter other than `x`. */
  lemma {:induction false} DeepHeads(k: nat)
    requires k < |DeepPhrases|
    ensures DeepPhrases[k] != [] && IsLetter(DeepPhrases[k][0]) && DeepPhrases[k][0] != 'x'
  {
    if k < 5 {
      if k == 0 {} else if k == 1 {} else if k == 2 {} else if k == 3 {} else {}
    } else {
      if k == 5 {} else if k == 6 {} else if k == 7 {} else if k == 8 {} else {}
    }
  }

  /** A text without the first letter of `lit` does not contain `lit`. */
  lemma {:induction false} HeadAbsent(s: string, lit: string)
    requires forall c :: c in s ==> !IsLetter(c) || c == 'x'
    requires lit != [] && IsLetter(lit[0]) && lit[0] != 'x'
    ensures !Contains(s, lit)
  {
    forall i | 0 <= i <= |s| - |lit| ensures !OccursAt(s, lit, i) {
      assert s[i..i + |lit|][0] == s[i];
      assert s[i] in s;
    }
  }

  /** Splitting on a character the text does not hold gives the text alone. */
  lemma {:induction false} SplitOnAbsent(s: string, c: char)
    requires c !in s
    ensures SplitOn(s, c) == [s]
  {
    SplitOnJoin([s], c);
  }

  /** A word followed by whitespace, or by nothing, is the first word. */
  lemma {:induction false} WordThenSpace(w: string, t: string)
    requires |w| > 0 && NoSpace(w) && (t == [] || IsSpace(t[0]))
    ensures Words(w + t) == [w] + Words(t)
  {
    var s := w + t;
    assert s[0] == w[0];
    NonSpacePrefixOf(w, t);
    assert s[0..] == s;
    assert s[..|w|] == w && s[|w|..] == t;
  }

  lemma {:induction false} WordsOfItems(n: nat)
    ensures |Words(Items(n))| == n
    decreases n
  {
    if n == 0 {
      assert Items(n) == [];
      NoWords();
    } else {
      WordsOfItems(n - 1);
      ItemsWordsStep(n);
    }
  }

  lemma {:induction false} NoWords()
    ensures Words([]) == []
  {
  }

  lemma {:induction false} ItemsWordsStep(n: nat)
    requires n > 0
    ensures |Words(Items(n))| == 1 + |Words(Items(n - 1))|
  {
    ItemsStep(n);
    if n > 1 {
      ItemsStep(n - 1);
    }
    ItemsWords(Items(n - 1), Items(n));
  }

  lemma {:induction false} ItemsWords(t: string, s: string)
    requires s == "\n" + ("x" + t) && (t == [] || t[0] == '\n')
    ensures Words(s) == ["x"] + Words(t)
  {
    WordThenSpace("x", t);
    WordsSpacePrefix("\n", "x" + t);
  }

  lemma {:induction false} ItemsStep(n: nat)
    requires n > 0
    ensures Items(n) == "\n" + ("x" + Items(n - 1)) && Items(n)[0] == '\n'
  {
  }

  // ---------------------------------------------------------------------------------------
  // truncate_list
  // ---------------------------------------------------------------------------------------

  /** `[item.split(":")[0].strip() for item in items]`. */
  function StripDescriptions(items: seq<string>): (r: seq<string>)
    ensures |r| == |items|
    ensures forall k :: 0 <= k < |r| ==> r[k] == Trim(SplitOn(items[k], ':')[0])
  {
    if items == [] then [] else [Trim(SplitOn(items[0], ':')[0])] + StripDescriptions(items[1..])
  }

  /** The items `truncate_list` keeps: at most three, each without its description. */
  function ListItems(text: string): (items: seq<string>)
    ensures |items| <= MaxListItems
    ensures |items| == |Take(SplitOn(text, ','), MaxListItems)|
    ensures forall k :: 0 <= k < |items| ==> PlainItem(items[k])
  {
    StripPlain(SplitOn(text, ','));
    Take(StripDescriptions(SplitOn(text, ',')), MaxListItems)
  }

  /** Cutting descriptions leaves no colon, and adds no comma. */
  lemma {:induction false} StripPlain(items: seq<string>)
    ensures forall k :: 0 <= k < |items| ==>
      ':' !in StripDescriptions(items)[k]
      && (',' !in items[k] ==> ',' !in StripDescriptions(items)[k])
  {
    forall k | 0 <= k < |items|
      ensures ':' !in StripDescriptions(items)[k]
      ensures ',' !in items[k] ==> ',' !in StripDescriptions(items)[k]
    {
      StripPiece(items[k]);
    }
  }

  lemma {:induction false} StripPiece(piece: string)
    ensures ':' !in Trim(SplitOn(piece, ':')[0])
    ensures ',' !in piece ==> ',' !in Trim(SplitOn(piece, ':')[0])
  {
    var head := SplitOn(piece, ':')[0];
    if ':' in Trim(head) {
      TrimChars(head, ':');
    }
    if ',' !in piece && ',' in Trim(head) {
      TrimChars(head, ',');
      SplitOnChars(piece, ':', 0, ',');
    }
  }

  /** `truncate_list`: the first three comma-separated items, descriptions cut, ", "-joined. */
  function TruncateList(text: string): (r: string)
    ensures ',' !in text ==> r == Trim(SplitOn(text, ':')[0])
    ensures exists items: seq<string> ::
      |items| <= MaxListItems && (forall k :: 0 <= k < |items| ==> PlainItem(items[k]))
      && r == Join(", ", items)
  {
    if ',' !in text then
      SplitOnAbsent(text, ',');
      Join(", ", ListItems(text))
    else Join(", ", ListItems(text))
  }

  /** Items without commas, colons or surrounding whitespace: what the list is made of. */
  predicate PlainItem(x: string) {
    ',' !in x && ':' !in x && NoEdgeSpace(x)
  }

  /** A list of plain items, ", "-joined, is read back as its first three items. */
  lemma {:induction false} TruncateListOfJoin(items: seq<string>)
    requires |items| >= 1 && forall k :: 0 <= k < |items| ==> PlainItem(items[k])
    ensures ListItems(Join(", ", items)) == Take(items, MaxListItems)
    ensures TruncateList(Join(", ", items)) == Join(", ", Take(items, MaxListItems))
  {
    SplitOfCommaJoin(items);
    StripSpaced(items);
  }

  /** The items with a space in front of all but the first: the pieces between commas. */
  function Spaced(items: seq<string>): (r: seq<string>)
    requires |items| >= 1
    ensures |r| == |items| && r[0] == items[0]
    ensures forall k :: 1 <= k < |items| ==> r[k] == " " + items[k]
  {
    [items[0]] + SpaceEach(items[1..])
  }

  lemma {:induction false} SplitOfCommaJoin(items: seq<string>)
    requires |items| >= 1 && forall k :: 0 <= k < |items| ==> PlainItem(items[k])
    ensures SplitOn(Join(", ", items), ',') == Spaced(items)
  {
    var j := Join(",", Spaced(items));
    assert SplitOn(j, ',') == Spaced(items) by {
      SpacedCommaFree(items);
      SplitOnJoin(Spaced(items), ',');
    }
    CommaJoinSpaced(items);
  }

  lemma {:induction false} CommaJoinSpaced(items: seq<string>)
    requires |items| >= 1
    ensures Join(", ", items) == Join(",", Spaced(items))
  {
    var a := items[0];
    var bs := items[1..];
    CommaSpaceJoin(a, bs);
    assert [a] + bs == items;
  }

  lemma {:induction false} SpacedCommaFree(items: seq<string>)
    requires |items| >= 1 && forall k :: 0 <= k < |items| ==> PlainItem(items[k])
    ensures forall k :: 0 <= k < |Spaced(items)| ==> ',' !in Spaced(items)[k]
  {
    forall k | 0 <= k < |items| ensures ',' !in Spaced(items)[k] {
      assert PlainItem(items[k]);
    }
  }

  lemma {:induction false} StripSpaced(items: seq<string>)
    requires |items| >= 1 && forall k :: 0 <= k < |items| ==> PlainItem(items[k])
    ensures StripDescriptions(Spaced(items)) == items
  {
    forall k | 0 <= k < |items| ensures StripDescriptions(Spaced(items))[k] == items[k] {
      PlainPiece(Spaced(items), items, k);
    }
  }

  lemma {:induction false} PlainPiece(spaced: seq<string>, items: seq<string>, k: nat)
    requires |items| >= 1 && forall j :: 0 <= j < |items| ==> PlainItem(items[j])
    requires spaced == Spaced(items) && k < |spaced|
    ensures Trim(SplitOn(spaced[k], ':')[0]) == items[k]
  {
    var x := items[k];
    assert PlainItem(x);
    if k == 0 {
      SplitOnAbsent(x, ':');
      TrimUnique([], x, []);
      assert [] + x + [] == x;
    } else {
      assert spaced[k] == " " + x;
      SplitOnAbsent(" " + x, ':');
      TrimUnique(" ", x, []);
      assert " " + x + [] == " " + x;
    }
  }

  function SpaceEach(xs: seq<string>): (r: seq<string>)
    ensures |r| == |xs| && forall k :: 0 <= k < |xs| ==> r[k] == " " + xs[k]
  {
    if xs == [] then [] else [" " + xs[0]] + SpaceEach(xs[1..])
  }

  /** ", " between items is "," between items with a space in front. */
  lemma {:induction false} CommaSpaceJoin(a: string, bs: seq<string>)
    ensures Join(", ", [a] + bs) == Join(",", [a] + SpaceEach(bs))
    decreases |bs|
  {
    if bs != [] {
      var b := bs[0];
      CommaSpaceJoin(b, bs[1..]);
      assert bs == [b] + bs[1..];
      assert ([a] + bs)[1..] == bs;
      assert ([a] + SpaceEach(bs))[1..] == SpaceEach(bs);
      assert SpaceEach(bs) == [" " + b] + SpaceEach(bs[1..]);
      JoinCons(",", ' ', b, SpaceEach(bs[1..]));
      assert " " + b == [' '] + b;
      JoinRegroup(a, ",", " ", Join(",", [b] + SpaceEach(bs[1..])));
    }
  }

  // ---------------------------------------------------------------------------------------
  // get_response
  // ---------------------------------------------------------------------------------------

  /** A reply: the text and the percentage saved. */
  datatype Reply = Reply(text: string, percentageSaved: real)

  /** The chat-completion request that would be sent. */
  datatype ProviderCall = ProviderCall(model: string, content: string, maxTokens: nat)

  /** The provider's answer, or the code and text of the error it raised. */
  datatype Answer = Answered(content: string) | ApiError(code: string, description: string)

  /** The `except` branch: two known codes, any other error reported with its text. */
  function ErrorReply(code: string, description: string): (r: Reply)
    ensures r.percentageSaved == 0.0
    ensures code == "insufficient_quota" ==> r.text == QuotaError
    ensures code == "model_not_found" ==> r.text == ModelError
    ensures code != "insufficient_quota" && code != "model_not_found" ==>
      r.text == "Error: " + description
  {
    if code == "insufficient_quota" then Reply(QuotaError, 0.0)
    else if code == "model_not_found" then Reply(ModelError, 0.0)
    else Reply("Error: " + description, 0.0)
  }

  /** Replies cached by input: the text and the percentage saved when it was computed. */
  type Cache = map<string, (string, real)>

  /** The reply, the cache afterwards, and the provider call made, if any. */
  datatype Outcome = Outcome(reply: Reply, cache: Cache, call: Option<ProviderCall>)

  /**
   * `get_response` of the application version, with `phrases` the stripped lines of the
   * phrase file, `tokens` the token counter and `answer` what the provider does.
   */
  function GetResponse(cache: Cache, input: string, phrases: seq<string>,
                       tokens: string -> nat, answer: Answer): (o: Outcome)
    ensures input in cache ==> o == Outcome(Reply(cache[input].0, 100.0), cache, None)
    ensures input !in cache ==> o.call == Some(ProviderCall(
      ChatModel, OptimizeText(input, phrases) + PromptSuffix, ChatMaxTokens))
    ensures input !in cache && answer.Answered? ==>
      o.reply.text == Trim(answer.content)
      && o.reply.percentageSaved == InputSavings(tokens(input), tokens(OptimizeText(input, phrases)))
      && o.cache == cache[input := (o.reply.text, o.reply.percentageSaved)]
    ensures input !in cache && answer.ApiError? ==>
      o.reply == ErrorReply(answer.code, answer.description) && o.cache == cache
  {
    if input in cache then Outcome(Reply(cache[input].0, 100.0), cache, None)
    else
      var optimized := OptimizeText(input, phrases);
      var pct := InputSavings(tokens(input), tokens(optimized));
      var call := ProviderCall(ChatModel, optimized + PromptSuffix, ChatMaxTokens);
      match answer
      case Answered(content) =>
        var text := Trim(content);
        Outcome(Reply(text, pct), cache[input := (text, pct)], Some(call))
      case ApiError(code, description) =>
        Outcome(ErrorReply(code, description), cache, Some(call))
  }

  /**
   * Asking twice: the second call is served from the cache, with the first reply's text,
   * 100 saved, and no provider call, whatever the provider would do.
   */
  lemma {:induction false} CacheReplay(cache: Cache, input: string, phrases: seq<string>, tokens: string -> nat,
                    first: Answer, second: Answer)
    requires first.Answered?
    ensures var o1 := GetResponse(cache, input, phrases, tokens, first);
      var o2 := GetResponse(o1.cache, input, phrases, tokens, second);
      o2.reply == Reply(o1.reply.text, 100.0) && o2.cache == o1.cache && o2.call.None?
  {
    var o1 := GetResponse(cache, input, phrases, tokens, first);
    assert input in o1.cache && o1.cache[input].0 == o1.reply.text by {
      if input !in cache {
        assert o1.cache == cache[input := (o1.reply.text, o1.reply.percentageSaved)];
      }
    }
  }

  /** Only a successful answer is cached, under its own input; other entries stay. */
  lemma {:induction false} CacheGrowsOnly(cache: Cache, input: string, phrases: seq<string>, tokens: string -> nat,
                       answer: Answer)
    ensures var o := GetResponse(cache, input, phrases, tokens, answer);
      && cache.Keys <= o.cache.Keys
      && (forall u :: u in cache ==> o.cache[u] == cache[u])
      && (o.cache.Keys == cache.Keys <==> input in cache || answer.ApiError?)
  {
    var o := GetResponse(cache, input, phrases, tokens, answer);
    if input !in cache && answer.Answered? {
      assert o.cache == cache[input := (o.reply.text, o.reply.percentageSaved)];
      AddEntry(cache, input, (o.reply.text, o.reply.percentageSaved));
    } else {
      assert o.cache == cache;
    }
  }

  lemma {:induction false} AddEntry<K, V>(m: map<K, V>, key: K, v: V)
    requires key !in m
    ensures m.Keys <= m[key := v].Keys && m[key := v].Keys != m.Keys
    ensures forall u :: u in m ==> m[key := v][u] == m[u]
  {
    assert key in m[key := v].Keys;
  }

  /** A Python call: the value it returns, or the name of the exception that escapes it. */
  datatype Call<T> = Returns(value: T) | Raises(exception: string)

  const AttributeError: string := "AttributeError"

  /**
   * `get_response` of the application version as written. Its `except` clause names
   * `OpenAI.error.OpenAIError`, but `OpenAI` is the client class imported at line 12, which
   * has no attribute `error`. Python evaluates that expression only after the `try` block
   * has raised, so a provider error becomes an `AttributeError` that leaves the method.
   */
  function GetResponseAsWritten(cache: Cache, input: string, phrases: seq<string>,
                                tokens: string -> nat, answer: Answer): (r: Call<Outcome>)
    ensures r.Raises? <==> input !in cache && answer.ApiError?
    ensures r.Raises? ==> r.exception == AttributeError
    ensures r.Returns? ==> r.value == GetResponse(cache, input, phrases, tokens, answer)
  {
    if input in cache || answer.Answered? then Returns(GetResponse(cache, input, phrases, tokens, answer))
    else Raises(AttributeError)
  }

  /**
   * Every provider error on an input that is not cached escapes the method as written; the
   * corrected clause answers it with the error reply and leaves the cache alone.
   */
  lemma {:induction false} ProviderErrorEscapes(cache: Cache, input: string, phrases: seq<string>,
                                                tokens: string -> nat, code: string, description: string)
    requires input !in cache
    ensures GetResponseAsWritten(cache, input, phrases, tokens, ApiError(code, description))
      == Raises(AttributeError)
    ensures var o := GetResponse(cache, input, phrases, tokens, ApiError(code, description));
      o.reply == ErrorReply(code, description) && o.cache == cache
  {
  }

  /**
   * `get_response` of the earlier version: the canned question, stripped and lower-cased,
   * is answered with 0 saved and no call; everything else goes to the provider.
   */
  function GetResponseBasic(input: string, tokens: string -> nat, answer: Answer):
    (o: (Reply, Option<ProviderCall>))
    ensures LowerStr(Trim(input)) == CannedQuestion ==> o == (Reply(CannedAnswer, 0.0), None)
    ensures LowerStr(Trim(input)) != CannedQuestion ==>
      o.1 == Some(ProviderCall(ChatModel, OptimizeTextBasic(input) + PromptSuffixBasic,
                               ChatMaxTokens))
    ensures LowerStr(Trim(input)) != CannedQuestion && answer.Answered? ==>
      o.0 == Reply(Trim(answer.content),
                   InputSavings(tokens(input), tokens(OptimizeTextBasic(input))))
    ensures LowerStr(Trim(input)) != CannedQuestion && answer.ApiError? ==>
      o.0 == ErrorReply(answer.code, answer.description)
  {
    if LowerStr(Trim(input)) == CannedQuestion then (Reply(CannedAnswer, 0.0), None)
    else
      var optimized := OptimizeTextBasic(input);
      var pct := InputSavings(tokens(input), tokens(optimized));
      var call := ProviderCall(ChatModel, optimized + PromptSuffixBasic, ChatMaxTokens);
      match answer
      case Answered(content) => (Reply(Trim(content), pct), Some(call))
      case ApiError(code, description) => (ErrorReply(code, description), Some(call))
  }

  /** `get_response` of the earlier version as written: its `except` clause fails the same way. */
  function GetResponseBasicAsWritten(input: string, tokens: string -> nat, answer: Answer):
    (r: Call<(Reply, Option<ProviderCall>)>)
    ensures r.Raises? <==> LowerStr(Trim(input)) != CannedQuestion && answer.ApiError?
    ensures r.Raises? ==> r.exception == AttributeError
    ensures r.Returns? ==> r.value == GetResponseBasic(input, tokens, answer)
  {
    if LowerStr(Trim(input)) == CannedQuestion || answer.Answered? then
      Returns(GetResponseBasic(input, tokens, answer))
    else Raises(AttributeError)
  }

  /** A provider error on any question but the canned one escapes the earlier version too. */
  lemma {:induction false} ProviderErrorEscapesBasic(input: string, tokens: string -> nat,
                                                     code: string, description: string)
    requires LowerStr(Trim(input)) != CannedQuestion
    ensures GetResponseBasicAsWritten(input, tokens, ApiError(code, description)) == Raises(AttributeError)
    ensures GetResponseBasic(input, tokens, ApiError(code, description)).0 == ErrorReply(code, description)
  {
  }

  /** The canned question is recognised in any ASCII case and between any whitespace. */
  lemma {:induction false} CannedIgnoresCaseAndSpace(a: string, t: string, b: string, tokens: string -> nat,
                                  answer: Answer)
    requires AllSpace(a) && AllSpace(b) && LowerStr(t) == CannedQuestion
    ensures GetResponseBasic(a + t + b, tokens, answer) == (Reply(CannedAnswer, 0.0), None)
  {
    LowerStrPointwise(t);
    assert Lower(t[0]) == 'w' && Lower(t[|t| - 1]) == '?';
    LowerKeepsSpaceChar(t[0]);
    LowerKeepsSpaceChar(t[|t| - 1]);
    TrimUnique(a, t, b);
  }

  lemma {:induction false} LowerKeepsSpaceChar(c: char)
    ensures IsSpace(c) ==> Lower(c) == c
  {
  }
}
