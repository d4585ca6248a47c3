/**
 * The Express route of the SUSTAIN server: `POST /` shortens the user's prompt, answers a
 * canned question or a bare arithmetic expression itself, and otherwise forwards the
 * shortened prompt to the chat-completion provider and accounts for the tokens saved;
 * `GET /co2-savings` reports the energy and CO2 the running total stands for.
 *
 * A request is handled in two phases. `Prepare` runs everything up to the provider call and
 * either answers at once or names the call to make; `Finish` takes the provider's outcome
 * and the running total and produces the reply and the new total. `Handle` composes them
 * for a given outcome.
 */
module SustainRoute {
  import opened Text
  import opened Wrappers
  import opened Rewrite
  import opened RegexEscape
  import opened StrictMath

  // ---------------------------------------------------------------------------------------
  // Constants
  // ---------------------------------------------------------------------------------------

  /** kWh per token, used by the running report. */
  const EnergyPerToken: real := 0.000002
  /** kg CO2 per kWh. */
  const Co2PerKwh: real := 0.4
  const MaxInputLength: nat := 1000
  const DefaultModel: string := "gpt-3.5-turbo"
  const AllowedModels: seq<string> := ["gpt-3.5-turbo", "gpt-4o"]
  const CannedQuestion: string := "what is sustain?"
  const CannedAnswer: string :=
    "I am SUSTAIN, an environmentally-friendly, token-optimized AI wrapper designed to reduce "
    + "compute costs and increase productivity. I filter out irrelevant words and phrases from "
    + "prompts and limit responses to essential outputs, minimizing the number of tokens used."
  const PromptSuffix: string := " in <20 words."
  /** The system message that opens every chat request: the wrapper's rules. */
  const SystemRules: string :=
    "You are SUSTAIN, a token-optimized AI wrapper. STRICTLY FOLLOW THESE RULES: "
    + "1. You CANNOT schedule appointments, manage calendars, send emails, or interact with external services. "
    + "2. If asked to perform an action, RESPOND: 'I cannot perform that action, but I can provide guidance.' "
    + "3. Do NOT claim to automate anything. You ONLY summarize and optimize text."
  const MaxTokens: nat := 50

  /** kWh per token for each model the route knows. */
  function ModelEnergy(model: string): (r: Option<real>)
    ensures r.Some? <==> model in AllowedModels
    ensures r.GetOr(0.000002) == if model == "gpt-4o" then 0.000003 else 0.000002
  {
    if model == "gpt-3.5-turbo" then Some(0.000002)
    else if model == "gpt-4o" then Some(0.000003)
    else None
  }

  // ---------------------------------------------------------------------------------------
  // The phrase list
  // ---------------------------------------------------------------------------------------

  function NonEmpty(lines: seq<string>): (r: seq<string>)
    ensures forall k :: 0 <= k < |r| ==> r[k] != [] && r[k] in lines
    ensures (forall k :: 0 <= k < |lines| ==> lines[k] != []) ==> r == lines
  {
    if lines == [] then []
    else if lines[0] == [] then NonEmpty(lines[1..])
    else [lines[0]] + NonEmpty(lines[1..])
  }

  /** A phrase as the list holds it: non-empty, with no whitespace at either end or line break. */
  predicate PhraseShape(p: string) {
    p != [] && NoEdgeSpace(p) && '\n' !in p
  }

  /** `data.split('\n').map(line => line.trim()).filter(line => line.length > 0)`. */
  function ParsePhraseFile(data: string): (ps: seq<string>)
    ensures forall k :: 0 <= k < |ps| ==> PhraseShape(ps[k])
  {
    var ps := NonEmpty(TrimAll(SplitOn(data, '\n')));
    forall k | 0 <= k < |ps| ensures PhraseShape(ps[k]) {
      TrimKeepsOut(SplitOn(data, '\n'), ps[k]);
    }
    ps
  }

  lemma {:induction false} TrimKeepsOut(lines: seq<string>, p: string)
    requires forall k :: 0 <= k < |lines| ==> '\n' !in lines[k]
    requires p in TrimAll(lines)
    ensures '\n' !in p
  {
    var k :| 0 <= k < |lines| && TrimAll(lines)[k] == p;
    var a, b :| lines[k] == a + p + b && AllSpace(a) && AllSpace(b);
    assert forall c :: c in p ==> c in lines[k];
  }

  /** The phrases loaded at start-up; `None` when the file could not be read. */
  function LoadPhrases(file: Option<string>): (ps: seq<string>)
    ensures forall k :: 0 <= k < |ps| ==> PhraseShape(ps[k])
    ensures file.None? ==> ps == []
  {
    match file
    case None => []
    case Some(data) => ParsePhraseFile(data)
  }

  /** A file written one phrase per line is read back as exactly that phrase list. */
  lemma {:induction false} PhraseFileRoundTrip(ps: seq<string>)
    requires ps != []
    requires forall k :: 0 <= k < |ps| ==> PhraseShape(ps[k])
    ensures ParsePhraseFile(Join("\n", ps)) == ps
  {
    assert "\n" == ['\n'];
    SplitOnJoin(ps, '\n');
    TrimAllIdentity(ps);
  }

  lemma {:induction false} TrimAllIdentity(ps: seq<string>)
    requires forall k :: 0 <= k < |ps| ==> NoEdgeSpace(ps[k])
    ensures TrimAll(ps) == ps
  {
    forall k | 0 <= k < |ps| ensures Trim(ps[k]) == ps[k] {
      TrimUnique([], ps[k], []);
      assert [] + ps[k] + [] == ps[k];
    }
  }

  // ---------------------------------------------------------------------------------------
  // Contractions and phrase removal
  // ---------------------------------------------------------------------------------------

  /** The route's table, in the order `Object.entries` visits it. */
  const Contractions: seq<(string, string)> := [
    ("I am", "I'm"), ("can not", "can't"), ("and", "&"), ("will not", "won't"),
    ("do not", "don't"), ("does not", "doesn't"), ("is not", "isn't"), ("are not", "aren't"),
    ("was not", "wasn't"), ("were not", "weren't"), ("have not", "haven't"),
    ("has not", "hasn't"), ("had not", "hadn't"), ("would not", "wouldn't"),
    ("should not", "shouldn't"), ("could not", "couldn't"), ("it is", "it's"),
    ("that is", "that's"), ("what is", "what's"), ("where is", "where's"),
    ("who is", "who's"), ("how is", "how's"), ("let us", "let's"), ("you are", "you're"),
    ("we are", "we're"), ("they are", "they're"), ("cannot", "can't")
  ]

  /** Every key starts with a non-space character and every value is a single word. */
  lemma {:induction false} ContractionsShape()
    ensures KeysNonEmpty(Contractions)
    ensures forall k :: 0 <= k < |Contractions| ==>
      SolidStart(Contractions[k].0) && NoSpace(Contractions[k].1)
  {
    forall k | 0 <= k < |Contractions| ensures WordEntry(Contractions[k]) {
      if k < 7 {
        ContractionEntriesA(k);
      } else if k < 14 {
        ContractionEntriesB(k);
      } else if k < 21 {
        ContractionEntriesC(k);
      } else {
        ContractionEntriesD(k);
      }
    }
  }

  lemma {:induction false} ContractionEntriesA(k: nat)
    requires 0 <= k < 7
    ensures WordEntry(Contractions[k])
  {
    if k == 0 {
    } else if k == 1 {
    } else if k == 2 {
    } else if k == 3 {
    } else if k == 4 {
    } else if k == 5 {
    } else {
    }
  }

  lemma {:induction false} ContractionEntriesB(k: nat)
    requires 7 <= k < 14
    ensures WordEntry(Contractions[k])
  {
    if k == 7 {
    } else if k == 8 {
    } else if k == 9 {
    } else if k == 10 {
    } else if k == 11 {
    } else if k == 12 {
    } else {
    }
  }

  lemma {:induction false} ContractionEntriesC(k: nat)
    requires 14 <= k < 21
    ensures WordEntry(Contractions[k])
  {
    if k == 14 {
    } else if k == 15 {
    } else if k == 16 {
    } else if k == 17 {
    } else if k == 18 {
    } else if k == 19 {
    } else {
    }
  }

  lemma {:induction false} ContractionEntriesD(k: nat)
    requires 21 <= k < 27
    ensures WordEntry(Contractions[k])
  {
    if k == 21 {
    } else if k == 22 {
    } else if k == 23 {
    } else if k == 24 {
    } else if k == 25 {
    } else {
    }
  }

  /** `applyContractions(text)`. */
  function ApplyContractions(s: string): (r: string)
    ensures Runs(r) <= Runs(s) && Runs([' '] + r) <= Runs([' '] + s)
  {
    ContractionsShape();
    ApplyTableKeepsRuns(s, Contractions);
    ApplyTable(s, Contractions)
  }

  /** Text in which no key occurs as a whole word passes through unchanged. */
  lemma {:induction false} ContractionsIdentity(s: string)
    requires forall k :: 0 <= k < |Contractions| ==> !HasWord(s, Contractions[k].0)
    ensures ApplyContractions(s) == s
  {
    ContractionsShape();
    ApplyTableIdentity(s, Contractions);
  }

  /** Every character of the result comes from the text or from a contraction. */
  lemma {:induction false} ContractionsChars(s: string, c: char)
    requires c in ApplyContractions(s)
    ensures c in s || exists k :: 0 <= k < |Contractions| && c in Contractions[k].1
  {
    ContractionsShape();
    ApplyTableChars(s, Contractions, c);
  }

  /** "DO NOT" contracts to "don't": only the fifth entry matches, whole-word and up to case. */
  lemma {:induction false} ContractionExample()
    ensures ApplyContractions("DO NOT") == "don't"
  {
    ContractionsSplit();
    ExampleBefore();
    ExampleEntry();
    ExampleAfter();
    ComposeTable("DO NOT", "don't", Contractions, ContractionsHead, [("do not", "don't")],
                 ContractionsTail1 + (ContractionsTail2 + ContractionsTail3));
  }

  lemma {:induction false} ExampleAfter()
    ensures KeysNonEmpty(ContractionsTail1 + (ContractionsTail2 + ContractionsTail3))
    ensures ApplyTable("don't", ContractionsTail1 + (ContractionsTail2 + ContractionsTail3))
            == "don't"
  {
    ExampleAfter1();
    ExampleAfter2();
    ExampleAfter3();
    ComposeUnchanged("don't", ContractionsTail1, ContractionsTail2, ContractionsTail3);
  }

  const ContractionsHead: seq<(string, string)> :=
    [("I am", "I'm"), ("can not", "can't"), ("and", "&"), ("will not", "won't")]
  const ContractionsTail1: seq<(string, string)> :=
    [("does not", "doesn't"), ("is not", "isn't"), ("are not", "aren't"),
     ("was not", "wasn't"), ("were not", "weren't"), ("have not", "haven't"),
     ("has not", "hasn't")]
  const ContractionsTail2: seq<(string, string)> :=
    [("had not", "hadn't"), ("would not", "wouldn't"), ("should not", "shouldn't"),
     ("could not", "couldn't"), ("it is", "it's"), ("that is", "that's"), ("what is", "what's")]
  const ContractionsTail3: seq<(string, string)> :=
    [("where is", "where's"), ("who is", "who's"), ("how is", "how's"), ("let us", "let's"),
     ("you are", "you're"), ("we are", "we're"), ("they are", "they're"), ("cannot", "can't")]

  lemma {:induction false} ContractionsSplit()
    ensures Contractions == ContractionsHead + ([("do not", "don't")]
      + (ContractionsTail1 + (ContractionsTail2 + ContractionsTail3)))
  {
  }

  lemma {:induction false} ExampleBefore()
    ensures KeysNonEmpty(ContractionsHead) && ApplyTable("DO NOT", ContractionsHead) == "DO NOT"
  {
    TablePlainlyAbsent("DO NOT", ContractionsHead);
    TableAbsentIdentity("DO NOT", ContractionsHead);
  }

  lemma {:induction false} ExampleEntry()
    ensures ApplyTable("DO NOT", [("do not", "don't")]) == "don't"
  {
    assert MatchLen("DO NOT", 0, WordAlt(["do not"])) == Some(6);
  }

  lemma {:induction false} ExampleAfter1()
    ensures KeysNonEmpty(ContractionsTail1) && ApplyTable("don't", ContractionsTail1) == "don't"
  {
    TablePlainlyAbsent("don't", ContractionsTail1);
    TableAbsentIdentity("don't", ContractionsTail1);
  }

  lemma {:induction false} ExampleAfter2()
    ensures KeysNonEmpty(ContractionsTail2) && ApplyTable("don't", ContractionsTail2) == "don't"
  {
    TablePlainlyAbsent("don't", ContractionsTail2);
    TableAbsentIdentity("don't", ContractionsTail2);
  }

  lemma {:induction false} ExampleAfter3()
    ensures KeysNonEmpty(ContractionsTail3) && ApplyTable("don't", ContractionsTail3) == "don't"
  {
    TablePlainlyAbsent("don't", ContractionsTail3);
    TableAbsentIdentity("don't", ContractionsTail3);
  }

  /**
   * `text.replace(new RegExp('\\b(' + phrases.map(escapeRegex).join('|') + ')\\b', 'gi'),
   * '').trim()`: every whole-word occurrence of a phrase is deleted, the first listed phrase
   * that matches winning, and the result is trimmed.
   */
  function RemovePhrases(s: string, phrases: seq<string>): (r: string)
    requires phrases != [] && forall k :: 0 <= k < |phrases| ==> PhraseShape(phrases[k])
    ensures NoEdgeSpace(r)
    ensures Runs(r) + 1 <= Runs([' '] + s)
  {
    forall k | 0 <= k < |phrases| ensures phrases[k] != [] && SolidStart(phrases[k]) {
      assert PhraseShape(phrases[k]);
    }
    var y := ReplaceAll(s, WordAlt(phrases), "");
    ReplaceKeepsRuns(s, phrases, "", 0);
    assert s[0..] == s;
    TrimRuns(y);
    Trim(y)
  }

  /** The regex the route builds from the phrase list has exactly the phrases as branches. */
  lemma {:induction false} RemovalRegexIsPhraseList(phrases: seq<string>)
    requires phrases != []
    ensures ParseAlternation(Join("|", EscapeAll(phrases))) == Some(phrases)
  {
    AlternationOfPhrases(phrases);
  }

  /** Contractions, then phrase removal when the list is not empty. */
  function Optimize(s: string, phrases: seq<string>): (r: string)
    requires forall k :: 0 <= k < |phrases| ==> PhraseShape(phrases[k])
  {
    var c := ApplyContractions(s);
    if phrases == [] then c else RemovePhrases(c, phrases)
  }

  /** `split(/\s+/).length`. */
  function WordCount(s: string): (n: nat)
    ensures n == Runs(s) + 1
  {
    JsSplitWsCount(s);
    |JsSplitWs(s)|
  }

  /**
   * Shortening never adds a word: for text with no leading whitespace, as the sanitised input
   * is, the optimised text splits into no more pieces than the text does.
   */
  lemma {:induction false} OptimizeWordCount(s: string, phrases: seq<string>)
    requires !StartsWs(s)
    requires forall k :: 0 <= k < |phrases| ==> PhraseShape(phrases[k])
    ensures 1 <= WordCount(Optimize(s, phrases)) <= WordCount(s)
  {
    RunsSpaceCons(s);
  }

  // ---------------------------------------------------------------------------------------
  // Requests, replies and the provider
  // ---------------------------------------------------------------------------------------

  /** A field of the JSON body: absent, a string, or a value of another type. */
  datatype Field = Missing | Str(s: string) | NonString

  datatype Request = Request(userInput: Field, model: Field)

  /** The JSON replies; `Status` gives the HTTP status of each. */
  datatype Reply =
    | Canned(responseText: string, percentageSaved: real)
    | MathDetected(result: JsNumber, percentageSaved: real)
    | Completion(responseText: string, percentageSaved: real, energyUsed: real, co2Emissions: real)
    | Failure(status: nat, error: string, percentageSaved: real)
  {
    function Status(): nat {
      if Failure? then status else 200
    }
  }

  /** The chat-completion request the route would send: the system message, then the user message. */
  datatype ProviderCall = ProviderCall(model: string, system: string, userContent: string, maxTokens: nat)

  /** What the provider call ends with: the reply's text and usage, or an error's code. */
  datatype Outcome = Completed(content: string, totalTokens: nat) | Failed(code: string)

  /** A request waiting for the provider, with the figures accounting needs afterwards. */
  datatype Pending = Pending(call: ProviderCall, originalLength: nat, optimizedLength: nat,
                             savings: real, energyPerToken: real)

  datatype Step = Answer(reply: Reply) | Call(pending: Pending)

  const InvalidInputError: string := "Invalid input: userInput is required and must be a string"

  /** `userInput.trim().substring(0, 1000)`. */
  function Sanitize(u: string): (s: string)
    ensures |s| <= MaxInputLength && !StartsWs(s)
    ensures exists rest :: Trim(u) == s + rest
    ensures |Trim(u)| <= MaxInputLength ==> s == Trim(u)
  {
    var t := Trim(u);
    var s := if |t| <= MaxInputLength then t else t[..MaxInputLength];
    assert t == s + t[|s|..];
    s
  }

  /** `model && allowedModels.includes(model) ? model : 'gpt-3.5-turbo'`. */
  function SelectModel(model: Field): (m: string)
    ensures m in AllowedModels
    ensures model.Str? && model.s in AllowedModels ==> m == model.s
    ensures !(model.Str? && model.s in AllowedModels) ==> m == DefaultModel
  {
    if model.Str? && model.s in AllowedModels then model.s else DefaultModel
  }

  /** `(original - optimized) / original * 100`, before rounding. */
  function Savings(original: nat, optimized: nat): (p: real)
    requires original >= 1 && optimized <= original
    ensures 0.0 <= p <= 100.0
    ensures optimized >= 1 ==> p < 100.0
    ensures p == 0.0 <==> optimized == original
  {
    (original - optimized) as real / original as real * 100.0
  }

  /**
   * The shortening stage: word counts before and after, the savings, and the provider call
   * for the selected model.
   */
  function Shorten(s: string, model: string, phrases: seq<string>): (p: Pending)
    requires !StartsWs(s)
    requires forall k :: 0 <= k < |phrases| ==> PhraseShape(phrases[k])
    ensures p.call == ProviderCall(model, SystemRules, Optimize(s, phrases) + PromptSuffix, MaxTokens)
    ensures p.originalLength == WordCount(s) && p.optimizedLength == WordCount(Optimize(s, phrases))
    ensures 1 <= p.optimizedLength <= p.originalLength
    ensures 0.0 <= p.savings < 100.0
    ensures p.energyPerToken == if model == "gpt-4o" then 0.000003 else 0.000002
  {
    var o := Optimize(s, phrases);
    OptimizeWordCount(s, phrases);
    var orig := WordCount(s);
    var opt := WordCount(o);
    Pending(ProviderCall(model, SystemRules, o + PromptSuffix, MaxTokens), orig, opt, Savings(orig, opt),
            ModelEnergy(model).GetOr(0.000002))
  }

  /** Up to the provider call: validation, sanitising, the shortcuts, and shortening. */
  function Prepare(req: Request, phraseFile: Option<string>): Step {
    if !req.userInput.Str? || req.userInput.s == [] then
      Answer(Failure(400, InvalidInputError, 0.0))
    else
      var s := Sanitize(req.userInput.s);
      if LowerStr(s) == CannedQuestion then Answer(Canned(CannedAnswer, 0.0))
      else
        match IsMathOptimization(s)
        case Some(v) => Answer(MathDetected(v, 100.0))
        case None => Call(Shorten(s, SelectModel(req.model), LoadPhrases(phraseFile)))
  }

  /** The reply for a provider error: its status and message. */
  function ErrorReply(code: string): (r: Reply)
    ensures r.Failure? && r.percentageSaved == 0.0
    ensures r.status == 429 <==> code == "insufficient_quota" || code == "rate_limit_exceeded"
    ensures r.status == 429 || r.status == 500
  {
    if code == "insufficient_quota" then Failure(429, "API quota exceeded", 0.0)
    else if code == "rate_limit_exceeded" then Failure(429, "Rate limit exceeded", 0.0)
    else Failure(500, "Error processing request", 0.0)
  }

  /** Accounting after the provider call; returns the reply and the new running total. */
  function Finish(p: Pending, outcome: Outcome, total: int): (Reply, int) {
    match outcome
    case Completed(content, usage) =>
      var saved := p.originalLength - p.optimizedLength + usage;
      var energy := saved as real * p.energyPerToken;
      (Completion(Trim(content), p.savings, energy, energy * Co2PerKwh), total + saved)
    case Failed(code) =>
      (ErrorReply(code), total)
  }

  /** The outcome of handling one request. */
  datatype Handled = Handled(reply: Reply, total: int, call: Option<ProviderCall>)

  /** `POST /` with the provider's outcome supplied: the reply, the new total, the call made. */
  function Handle(req: Request, phraseFile: Option<string>, outcome: Outcome, total: int): Handled {
    match Prepare(req, phraseFile)
    case Answer(reply) => Handled(reply, total, None)
    case Call(p) =>
      var (reply, total') := Finish(p, outcome, total);
      Handled(reply, total', Some(p.call))
  }

  // ---------------------------------------------------------------------------------------
  // Properties of the request pipeline
  // ---------------------------------------------------------------------------------------

  /** A missing, empty or non-string input is a 400 before any other stage. */
  lemma {:induction false} InvalidInputRejected(req: Request, file: Option<string>, outcome: Outcome, total: int)
    ensures var h := Handle(req, file, outcome, total);
      (h.reply == Failure(400, InvalidInputError, 0.0) && h.call.None? && h.total == total)
      <==> (!req.userInput.Str? || req.userInput.s == [])
  {
  }

  /** The canned question is answered first, with 0 saved and no provider call. */
  lemma {:induction false} CannedAnswerFirst(req: Request, file: Option<string>, outcome: Outcome, total: int)
    requires req.userInput.Str? && req.userInput.s != []
    requires LowerStr(Sanitize(req.userInput.s)) == CannedQuestion
    ensures Handle(req, file, outcome, total) == Handled(Canned(CannedAnswer, 0.0), total, None)
  {
  }

  /**
   * The canned check ignores whitespace around the input and ASCII case: any input that is
   * the question, in any case, between whitespace, gets the canned answer.
   */
  lemma {:induction false} CannedIgnoresSpace(a: string, t: string, b: string, model: Field, file: Option<string>,
                           outcome: Outcome, total: int)
    requires AllSpace(a) && AllSpace(b) && NoEdgeSpace(t) && LowerStr(t) == CannedQuestion
    ensures Handle(Request(Str(a + t + b), model), file, outcome, total)
            == Handled(Canned(CannedAnswer, 0.0), total, None)
  {
    TrimUnique(a, t, b);
    LowerStrPointwise(t);
    assert |t| == |CannedQuestion| <= MaxInputLength;
    assert Sanitize(a + t + b) == t;
    assert a + t + b != [];
    CannedAnswerFirst(Request(Str(a + t + b), model), file, outcome, total);
  }

  /** A bare arithmetic expression is answered with its value and 100 saved, with no call. */
  lemma {:induction false} MathShortcut(req: Request, file: Option<string>, outcome: Outcome, total: int)
    requires req.userInput.Str? && req.userInput.s != []
    requires LowerStr(Sanitize(req.userInput.s)) != CannedQuestion
    requires IsMathOptimization(Sanitize(req.userInput.s)).Some?
    ensures Handle(req, file, outcome, total) == Handled(
      MathDetected(IsMathOptimization(Sanitize(req.userInput.s)).value, 100.0), total, None)
  {
  }

  /**
   * Otherwise the provider is asked, with the allowed model and the shortened prompt, and
   * the input's savings lie in [0, 100).
   */
  lemma {:induction false} ProviderRequest(req: Request, file: Option<string>)
    requires req.userInput.Str? && req.userInput.s != []
    requires LowerStr(Sanitize(req.userInput.s)) != CannedQuestion
    requires IsMathOptimization(Sanitize(req.userInput.s)).None?
    ensures Prepare(req, file).Call?
    ensures var call := Prepare(req, file).pending.call;
      call.model == SelectModel(req.model) && call.system == SystemRules
      && call.userContent == Optimize(Sanitize(req.userInput.s), LoadPhrases(file)) + PromptSuffix
      && call.maxTokens == 50
    ensures var p := Prepare(req, file).pending;
      1 <= p.optimizedLength <= p.originalLength && 0.0 <= p.savings < 100.0
  {
  }

  /**
   * The running total changes only after a successful completion, and then by exactly the
   * word-count delta plus the provider-reported usage.
   */
  lemma {:induction false} CounterOnSuccessOnly(req: Request, file: Option<string>, outcome: Outcome, total: int)
    ensures var h := Handle(req, file, outcome, total);
      h.total != total ==> h.call.Some? && outcome.Completed?
    ensures var h := Handle(req, file, outcome, total);
      h.call.Some? && outcome.Completed? ==>
        var p := Prepare(req, file).pending;
        h.total == total + p.originalLength - p.optimizedLength + outcome.totalTokens
  {
  }

  /** The total never decreases, so starting from 0 it is never negative. */
  lemma {:induction false} CounterMonotone(req: Request, file: Option<string>, outcome: Outcome, total: int)
    ensures Handle(req, file, outcome, total).total >= total
  {
    match Prepare(req, file)
    case Answer(_) =>
    case Call(p) =>
      assert p.optimizedLength <= p.originalLength by { ProviderRequestShape(req, file); }
  }

  lemma {:induction false} ProviderRequestShape(req: Request, file: Option<string>)
    requires Prepare(req, file).Call?
    ensures Prepare(req, file).pending.optimizedLength <= Prepare(req, file).pending.originalLength
  {
  }

  /**
   * A completed call is answered with the stripped text and the input savings; its energy is
   * the counter increment (at least the usage) times the model's rate, and its CO2 is that energy
   * times the grid factor.
   */
  lemma {:induction false} FinishCompleted(p: Pending, content: string, usage: nat, total: int)
    requires p.optimizedLength <= p.originalLength
    ensures var (reply, t) := Finish(p, Completed(content, usage), total);
      t - total >= usage
      && reply == Completion(Trim(content), p.savings, (t - total) as real * p.energyPerToken,
                             (t - total) as real * p.energyPerToken * Co2PerKwh)
  {
  }

  /** A request that reaches the provider is answered by the accounting stage. */
  lemma {:induction false} HandleCall(req: Request, file: Option<string>, outcome: Outcome, total: int)
    requires Prepare(req, file).Call?
    ensures var p := Prepare(req, file).pending;
      Handle(req, file, outcome, total)
      == Handled(Finish(p, outcome, total).0, Finish(p, outcome, total).1, Some(p.call))
  {
  }

  /** The energy rate of a provider request is that of the selected model. */
  lemma {:induction false} PendingRate(req: Request, file: Option<string>)
    requires Prepare(req, file).Call?
    ensures Prepare(req, file).pending.energyPerToken
            == if SelectModel(req.model) == "gpt-4o" then 0.000003 else 0.000002
  {
    PrepareCall(req, file);
  }

  /** A request that reaches the provider is shortened with the selected model and phrases. */
  lemma {:induction false} PrepareCall(req: Request, file: Option<string>)
    requires Prepare(req, file).Call?
    ensures req.userInput.Str?
    ensures Prepare(req, file).pending
            == Shorten(Sanitize(req.userInput.s), SelectModel(req.model), LoadPhrases(file))
  {
    assert req.userInput.Str? && req.userInput.s != [];
    var s := Sanitize(req.userInput.s);
    assert LowerStr(s) != CannedQuestion;
    assert IsMathOptimization(s).None?;
  }

  /** A provider failure leaves the total as it was and maps to 429 or 500 with 0 saved. */
  lemma {:induction false} ProviderFailure(req: Request, file: Option<string>, code: string, total: int)
    requires Prepare(req, file).Call?
    ensures var h := Handle(req, file, Failed(code), total);
      h.total == total && h.reply.Failure? && h.reply.percentageSaved == 0.0
      && (h.reply.Status() == 429 <==> code == "insufficient_quota" || code == "rate_limit_exceeded")
      && (h.reply.Status() == 429 || h.reply.Status() == 500)
  {
  }

  // ---------------------------------------------------------------------------------------
  // GET /co2-savings
  // ---------------------------------------------------------------------------------------

  datatype Co2Report = Co2Report(totalKwhSaved: real, totalCo2Saved: real)

  /** The report for a running total. */
  function Co2Savings(total: int): (r: Co2Report)
    ensures total == 0 ==> r == Co2Report(0.0, 0.0)
    ensures total != 0 ==> r.totalKwhSaved == total as real * EnergyPerToken
    ensures r.totalCo2Saved == r.totalKwhSaved * Co2PerKwh
  {
    if total == 0 then Co2Report(0.0, 0.0)
    else
      var kwh := total as real * EnergyPerToken;
      Co2Report(kwh, kwh * Co2PerKwh)
  }

  /** Both figures are proportional to the total, and grow with it. */
  lemma {:induction false} Co2Monotone(t1: int, t2: int)
    requires 0 <= t1 <= t2
    ensures Co2Savings(t1).totalKwhSaved <= Co2Savings(t2).totalKwhSaved
    ensures Co2Savings(t1).totalCo2Saved <= Co2Savings(t2).totalCo2Saved
  {
  }
}
