# SUSTAIN prompt optimiser, modelled in Dafny

SUSTAIN is a chat wrapper that shortens a user's prompt before it goes to a
language-model provider, and reports how much was saved. This project models
its core in three parts:

- **The Express route** `POST /` and `GET /co2-savings` (`server/routes/sustain.js`):
  - the phrase file loaded at start-up;
  - validation and sanitising of the input;
  - the canned answer for "what is sustain?";
  - the arithmetic shortcut `isMathOptimization`;
  - contractions with whole-word, case-insensitive regexes;
  - removal of the loaded phrases through one escaped alternation;
  - word counts and the savings percentage;
  - the provider request (the wrapper's system rules, then the user message), the running token counter, the error mapping, and the CO₂ report.
- **The client-side `MathOptimizer`** (`src/utils/MathOptimizer.js`):
  - `cleanInput`;
  - the number-word and operator-word tables;
  - `solveMath`, with its evaluation gate in front of `eval`.
- **The two Python versions of the `SUSTAIN` class** (`application/sustain.py` and
  `sustain.py`):
  - `get_response`, with its response cache in the application version;
  - `optimize_text`, `convert_to_contractions`, `trim_response` and `calculate_percentage_saved`;
  - `deep_optimize_response` and `truncate_list`.

The modules follow that structure:

| module | file | what it holds |
|---|---|---|
| `Wrappers` | `wrappers.dfy` | `Option` |
| `Text` | `text.dfy` | the string built-ins both languages use: `trim`/`strip`, `split(/\s+/)`, Python's `split()`, `join`, `split(c)`, ASCII lower-casing |
| `Rewrite` | `rewrite.dfy` | a left-to-right regex replacement scanner for the three pattern kinds the code uses (a whole-word alternation under the `i` flag, a literal, a whitespace run), the table loops built on it, and Python's literal `str.replace` |
| `WordRewrite` | `word_rewrite.dfy` | whole-word replacement on single-spaced words, seen word by word: phrase tables, and tables of one-word keys as a lookup |
| `RegexEscape` | `regex_escape.dfy` | `escapeRegex`, and a reader for the alternation source the route builds |
| `StrictMath` | `strict_math.dfy` | `isMathOptimization` |
| `SustainRoute` | `sustain_route.dfy` | the route |
| `MathOptimizer` | `math_optimizer.dfy` | `MathOptimizer` |
| `SustainPy` | `sustain_py.dfy` | both Python classes |

Each request handler is a pure function. Anything outside the code is an input:
- the phrase file's content (or its absence);
- the provider's outcome (a completion with its token usage, or an error code);
- the running token total;
- the Python token counter (a function `string -> nat`);
- JavaScript's `eval` (a function returning a value or a thrown message).

The handlers return the reply, the new state, and the provider request they would make. In the route that request holds the system message with the wrapper's rules, then the user message. `None` means no request was made.

Text conventions:
- Whitespace is the six ASCII whitespace characters.
- `\b` is the ASCII word boundary.
- Case-insensitivity is ASCII case folding.
- JavaScript numbers are reals, with `Infinity` and `NaN` where the arithmetic shortcut can produce them.

## Model

| member | source | states |
|---|---|---|
| `Text.Trim` | server/routes/sustain.js:138 | the result has no whitespace at either end and is the input with only whitespace removed around it |
| `Text.TrimUnique` | server/routes/sustain.js:138 | whatever whitespace surrounds text without edge whitespace, trimming gives back exactly that text |
| `Text.TrimAll` | server/routes/sustain.js:29 | each line is trimmed, one result per line |
| `Text.LowerStrPointwise` | server/routes/sustain.js:145 | lower-casing keeps the length and folds every character on its own |
| `Text.JsSplitWs` | server/routes/sustain.js:160 | `split(/\s+/)` yields at least one piece and no piece holds whitespace |
| `Text.JsSplitWsCount` | server/routes/sustain.js:160 | `split(/\s+/)` yields one more piece than the text has whitespace runs |
| `Text.Words` | application/sustain.py:72 | Python's `split()` yields non-empty, whitespace-free words |
| `Text.WordsOfJoin` | application/sustain.py:74 | `split()` gives back the words that `' '.join` put together |
| `Text.CollapseSpec` | application/sustain.py:112 | `' '.join(text.split())` is single-spaced with no edge whitespace and has the same words |
| `Text.CollapseIdempotent` | application/sustain.py:112 | normalising whitespace twice is normalising it once |
| `Text.CollapseFixpoint` | application/sustain.py:112 | normalising leaves text unchanged exactly when it is already single-spaced with no edge whitespace |
| `Text.SplitOn` | application/sustain.py:172 | `split(c)` yields at least one piece and no piece holds `c` |
| `Text.JoinSplitOn` | application/sustain.py:172 | joining the pieces of `split(c)` with `c` gives the text back |
| `Text.WordsAppend` | application/sustain.py:162-166 | `split()` of two texts, the second empty or starting with whitespace, is the words of the first, then those of the second |
| `Text.WordsOfPieces` | application/sustain.py:162-166 | joining whitespace-free pieces with single spaces gives at most one word per piece |
| `Text.SplitOnJoin` | application/sustain.py:172 | splitting a `c`-join of `c`-free parts gives the parts back |
| `Rewrite.FirstAltFirst` | server/routes/sustain.js:170 | an alternation matches with its first matching branch; when none is chosen, no branch matches |
| `Rewrite.ReplaceChars` | server/routes/sustain.js:81 | every character a replacement outputs comes from the scanned text or from the replacement |
| `Rewrite.ReplaceNoMatch` | server/routes/sustain.js:81 | text the pattern never matches comes out unchanged |
| `Rewrite.ReplaceCharGone` | src/utils/MathOptimizer.js:67 | replacing every `c` by text without `c` leaves no `c` |
| `Rewrite.ReplaceKeepsRuns` | server/routes/sustain.js:81 | replacing whole words by whitespace-free text never adds a whitespace run |
| `Rewrite.ApplyTableIdentity` | server/routes/sustain.js:79-82 | when no key occurs as a whole word, the table loop returns the text unchanged |
| `Rewrite.ApplyTableKeepsRuns` | server/routes/sustain.js:79-82 | a table of word-led keys and one-word values never raises the word count |
| `Rewrite.ApplyTableChars` | server/routes/sustain.js:79-84 | every character the table loop outputs is from the text or from one of the values |
| `Rewrite.ApplyTableShrinks` | application/sustain.py:144-145 | a table whose values are no longer than their keys never lengthens the text |
| `Rewrite.ApplyTableAppend` | server/routes/sustain.js:79-82 | running the loop over two tables in turn is running it over their concatenation |
| `Rewrite.TableAbsentIdentity` | src/utils/MathOptimizer.js:51-53 | a table none of whose keys occurs anywhere leaves the text as it is |
| `Rewrite.RemoveLiteral` | application/sustain.py:106 | `replace(phrase, "")` never lengthens the text, and is the identity when the phrase does not occur |
| `Rewrite.RemoveEach` | application/sustain.py:105-106 | removing each phrase in turn never lengthens the text, and changes nothing when none occurs |
| `Rewrite.WordsEmptyIsSpace` | application/sustain.py:166 | text has no words exactly when it is all whitespace |
| `Rewrite.SquashAndTrimIsCollapse` | src/utils/MathOptimizer.js:39 | `replace(/\s+/g, ' ').trim()` equals `' '.join(s.split())` on every input whose whitespace is the model's six ASCII characters |
| `WordRewrite.ReplacePhrase` | server/routes/sustain.js:81 | on single-spaced tokens, replacing a whole-word phrase in the text is replacing every left-most, non-overlapping run of tokens equal to the phrase up to case, then joining |
| `WordRewrite.ApplyTableTokens` | server/routes/sustain.js:79-82 | on single-spaced tokens, the table loop is the token-level replacement of each entry in turn |
| `WordRewrite.SubstTableIsLookup` | src/utils/MathOptimizer.js:51-53 | a table of one-word keys whose replacements are not keys replaces every word by the value of its first matching key, and leaves a word that matches none |
| `WordRewrite.Lookup` | src/utils/MathOptimizer.js:51-53 | a word equal to no key up to case is kept; otherwise it gets the value of the first key it equals |
| `WordRewrite.SubstOneWord` | src/utils/MathOptimizer.js:52 | replacing a one-word phrase changes exactly the words equal to it up to case, and keeps the word count |
| `WordRewrite.SubstTableByDiffers` | server/routes/sustain.js:79-82 | tokens that differ from the first word of every key in length or in one of their first two letters are left as they are |
| `RegexEscape.EscapeChar` | server/routes/sustain.js:44 | a special character gets one backslash in front; any other character is kept as it is |
| `RegexEscape.EscapeRegex` | server/routes/sustain.js:44 | escaping never shortens a phrase |
| `RegexEscape.EscapeAppend` | server/routes/sustain.js:44 | escaping works character by character, so it distributes over concatenation |
| `RegexEscape.UnescapeEscape` | server/routes/sustain.js:44 | deleting the inserted backslashes recovers the phrase |
| `RegexEscape.AlternationOfPhrases` | server/routes/sustain.js:168-170 | the escaped, `\|`-joined phrases read back as an alternation whose branches are exactly the phrases |
| `StrictMath.DigitPrefixLen` | server/routes/sustain.js:88 | `\d+` takes the longest digit prefix: all digits, and no digit after it |
| `StrictMath.MatchMathSound` | server/routes/sustain.js:88-89 | a match splits the input into number, spaces, one operator, spaces and number, with nothing left over |
| `StrictMath.MatchMathComplete` | server/routes/sustain.js:88-89 | every input of that shape is matched, with its own numbers and operator |
| `StrictMath.Apply` | server/routes/sustain.js:96-111 | the four operators on the parsed numbers; only division by zero is not finite, and it is NaN exactly for 0/0 |
| `StrictMath.DivisionExact` | server/routes/sustain.js:106-107 | division by a non-zero number is exact: the quotient times the divisor gives back the dividend |
| `StrictMath.MathShortcutIff` | server/routes/sustain.js:87-116 | a value is returned exactly when the input has the pattern's shape |
| `StrictMath.MathValue` | server/routes/sustain.js:90-113 | on input of the shape, the value is the operator applied to the decimal values of the two numbers |
| `StrictMath.ExampleSum` | server/routes/sustain.js:98-99 | `4+4` gives 8 |
| `StrictMath.ExampleDifference` | server/routes/sustain.js:100-101 | `9-20` gives -11: the difference is not clamped at zero |
| `StrictMath.ExampleChain` | server/routes/sustain.js:88 | a chained expression `4+4+4` is not taken by the shortcut |
| `SustainRoute.ParsePhraseFile` | server/routes/sustain.js:27-30 | every loaded phrase is non-empty, has no edge whitespace and contains no line break |
| `SustainRoute.LoadPhrases` | server/routes/sustain.js:25-34 | a file that cannot be read leaves the phrase list empty |
| `SustainRoute.PhraseFileRoundTrip` | server/routes/sustain.js:27-30 | a file written one phrase per line loads as exactly that list |
| `SustainRoute.NonEmpty` | server/routes/sustain.js:30 | only non-empty lines are kept, all of them from the input, and a list without empty lines is kept whole |
| `SustainRoute.TrimAllIdentity` | server/routes/sustain.js:29 | trimming lines that have no edge whitespace changes nothing |
| `SustainRoute.ContractionsShape` | server/routes/sustain.js:48-76 | every key of the contraction table starts with a non-space character, and every value is one word |
| `SustainRoute.ApplyContractions` | server/routes/sustain.js:47-85 | contracting never adds a whitespace run, so it never raises the word count |
| `SustainRoute.ContractionsIdentity` | server/routes/sustain.js:78-82 | text with none of the keys as a whole word is returned unchanged |
| `SustainRoute.ContractionsChars` | server/routes/sustain.js:78-84 | every output character comes from the text or from a contraction |
| `SustainRoute.ContractionExample` | server/routes/sustain.js:53 | "DO NOT" becomes "don't": whole-word and case-insensitive |
| `SustainRoute.RemovePhrases` | server/routes/sustain.js:166-173 | after phrase removal and trimming, the text has no edge whitespace and at least one run fewer than the text with a space in front |
| `SustainRoute.RemovalRegexIsPhraseList` | server/routes/sustain.js:168-170 | the removal regex has exactly the loaded phrases as its branches |
| `SustainRoute.WordCount` | server/routes/sustain.js:160 | the word count is the number of whitespace runs plus one |
| `SustainRoute.OptimizeWordCount` | server/routes/sustain.js:160-175 | optimising sanitised input never raises its word count, which stays at least 1 |
| `SustainRoute.Sanitize` | server/routes/sustain.js:138 | sanitised input is at most 1000 characters, starts with no whitespace, and is a prefix of the trimmed input, which it equals when that fits |
| `SustainRoute.SelectModel` | server/routes/sustain.js:141-142 | an allowed model is used as given; anything else selects `gpt-3.5-turbo` |
| `SustainRoute.Savings` | server/routes/sustain.js:178 | the input saving lies in [0, 100], stays below 100 while a word remains, and is 0 exactly when the word count did not drop |
| `SustainRoute.Shorten` | server/routes/sustain.js:160-196 | the request carries the system message with the wrapper's three rules, then the optimised text with " in <20 words." and 50 tokens, the counts and savings are in range, and the energy rate is gpt-4o's or else gpt-3.5-turbo's |
| `SustainRoute.ErrorReply` | server/routes/sustain.js:219-235 | quota and rate-limit errors are 429 and every other error is 500, always with 0 saved |
| `SustainRoute.InvalidInputRejected` | server/routes/sustain.js:130-135 | the reply is the 400 error, with no provider call and the total unchanged, exactly when the input is missing, empty or not a string |
| `SustainRoute.CannedAnswerFirst` | server/routes/sustain.js:145-150 | the canned question gets the fixed answer with 0 saved, before the math check and with no provider call |
| `SustainRoute.CannedIgnoresSpace` | server/routes/sustain.js:138-150 | the canned question is recognised between any whitespace and in any ASCII case |
| `SustainRoute.MathShortcut` | server/routes/sustain.js:152-159 | an arithmetic input gets its value with 100 saved and no provider call |
| `SustainRoute.ProviderRequest` | server/routes/sustain.js:184-196 | any other input calls the selected model with the system rules message, then the optimised text and the suffix, and 50 tokens |
| `SustainRoute.CounterOnSuccessOnly` | server/routes/sustain.js:200-202 | the running total changes only after a completed call, and then by the saved words plus the tokens used |
| `SustainRoute.CounterMonotone` | server/routes/sustain.js:200-202 | the running total never decreases |
| `SustainRoute.ProviderRequestShape` | server/routes/sustain.js:160-175 | whenever a call is made, the optimised count does not exceed the original count |
| `SustainRoute.FinishCompleted` | server/routes/sustain.js:198-213 | a completed call is answered with the stripped text and the input savings; its energy is the counter increment (at least the tokens used) times the request's rate, and its CO₂ is that energy times 0.4 |
| `SustainRoute.HandleCall` | server/routes/sustain.js:185-213 | a request that reaches the provider is answered, and the counter advanced, by the accounting of that provider call |
| `SustainRoute.ModelEnergy` | server/routes/sustain.js:119-122 | exactly the two allowed models have a rate, and with the gpt-3.5-turbo fallback the rate is 0.000003 for gpt-4o and 0.000002 otherwise |
| `SustainRoute.PendingRate` | server/routes/sustain.js:181-182 | the energy rate of a provider request is 0.000003 kWh per token for gpt-4o and 0.000002 otherwise |
| `SustainRoute.PrepareCall` | server/routes/sustain.js:141-196 | a request reaches the provider only as a string input, and then with the sanitised text, the selected model and the loaded phrases |
| `SustainRoute.ProviderFailure` | server/routes/sustain.js:216-236 | a provider error leaves the total as it was and maps to 429 or 500 with 0 saved |
| `SustainRoute.Co2Savings` | server/routes/sustain.js:245-258 | a zero total reports zeros; otherwise kWh is total × 0.000002 and CO₂ is kWh × 0.4 |
| `SustainRoute.Co2Monotone` | server/routes/sustain.js:251-252 | both figures grow with the total |
| `MathOptimizer.FirstPrefix` | src/utils/MathOptimizer.js:37 | the chosen courtesy alternative occurs at the start, up to case |
| `MathOptimizer.FirstPrefixFirst` | src/utils/MathOptimizer.js:37 | the chosen alternative is the first that occurs at the start; with none chosen, none occurs |
| `MathOptimizer.StripPrefix` | src/utils/MathOptimizer.js:37 | stripping never lengthens; without a courtesy prefix the text is unchanged |
| `MathOptimizer.StripPrefixOf` | src/utils/MathOptimizer.js:37 | exactly the chosen alternative and the whitespace after it are removed |
| `MathOptimizer.CourtesyStartsWithLetter` | src/utils/MathOptimizer.js:37 | text that does not start with a letter keeps its start |
| `MathOptimizer.FilterChars` | src/utils/MathOptimizer.js:38 | a character survives exactly when it occurs in the input and is in the kept class |
| `MathOptimizer.FilterAppend` | src/utils/MathOptimizer.js:38 | the filter distributes over concatenation |
| `MathOptimizer.FilterKeepsAll` | src/utils/MathOptimizer.js:38 | text made only of kept characters is unchanged |
| `MathOptimizer.CleanWith` | src/utils/MathOptimizer.js:36-41 | cleaned text is single-spaced with no edge whitespace and holds only kept characters |
| `MathOptimizer.CleanInputAsWritten` | src/utils/MathOptimizer.js:36-41 | as written, cleaned text is normalised and holds only characters of the written class |
| `MathOptimizer.CleanInput` | src/utils/MathOptimizer.js:36-41 | with the two corrections, cleaned text is normalised and holds only kept characters, the point included |
| `MathOptimizer.CleanInputFixpoint` | src/utils/MathOptimizer.js:36-41 | an already clean expression with no courtesy prefix is left as it is |
| `MathOptimizer.PleaseTellMeKept` | src/utils/MathOptimizer.js:37 | as written, "please tell me …" only loses "please ", so "tell me" stays |
| `MathOptimizer.PleaseTellMeStripped` | src/utils/MathOptimizer.js:37 | with the longer alternative first, the whole phrase and the spaces after it are removed |
| `MathOptimizer.PointDropped` | src/utils/MathOptimizer.js:38 | as written, "a.b" for digit strings a and b is cleaned to "ab" |
| `MathOptimizer.PointKept` | src/utils/MathOptimizer.js:38 | with the point kept, a decimal number is cleaned to itself |
| `MathOptimizer.NumberWordsShape` | src/utils/MathOptimizer.js:20-32 | every number word maps to a string of digits |
| `MathOptimizer.OperatorWordsShape` | src/utils/MathOptimizer.js:6-17 | every basic operator word maps to one operator character |
| `MathOptimizer.ConvertWordsToNumbers` | src/utils/MathOptimizer.js:50-55 | every output character is from the input or a digit |
| `MathOptimizer.WordsToNumbersIdentity` | src/utils/MathOptimizer.js:50-55 | text with no number word is unchanged |
| `MathOptimizer.ConvertOps` | src/utils/MathOptimizer.js:58-69 | no caret is left, and every output character is from the input or an operator |
| `MathOptimizer.ConvertOpsIdentity` | src/utils/MathOptimizer.js:58-69 | text with no operator word, power phrase or caret is unchanged |
| `MathOptimizer.NumbersWordByWord` | src/utils/MathOptimizer.js:50-55 | on single-spaced tokens, each word equal to a number word up to case becomes its digits and every other word is kept |
| `MathOptimizer.OpsWordByWord` | src/utils/MathOptimizer.js:58-69 | on single-spaced tokens without a caret, the operator phrases are replaced as whole words in table order, then "to the power of" |
| `MathOptimizer.ConvertOpsCaretFree` | src/utils/MathOptimizer.js:66-67 | on text without a caret, `convertOps` is its two phrase passes and the caret pass changes nothing |
| `MathOptimizer.ConvertByWords` | src/utils/MathOptimizer.js:73-75 | on such words, the two conversions look each word up as a number and then replace the operator phrases in the result |
| `MathOptimizer.Convert` | src/utils/MathOptimizer.js:74-75 | after both conversions no caret is left, and every character is from the text, a digit or an operator |
| `MathOptimizer.ConvertIdentity` | src/utils/MathOptimizer.js:50-69 | text with no letter and no caret passes both conversions unchanged |
| `MathOptimizer.ExpressionAsWritten` | src/utils/MathOptimizer.js:73-75 | as written, the text handed to the gate has no caret |
| `MathOptimizer.Expression` | src/utils/MathOptimizer.js:73-75 | with `cleanInput` corrected, the text handed to the gate has no caret |
| `MathOptimizer.CleanInputAsWrittenFixpoint` | src/utils/MathOptimizer.js:36-41 | as written, an already clean expression of the written class with no courtesy prefix is left as it is |
| `MathOptimizer.Solve` | src/utils/MathOptimizer.js:80-89 | a value exactly when the gate accepts and `eval` returns; a thrown error becomes "Error: " and its message; ungated text gives the invalid-expression error |
| `MathOptimizer.SolveMathAsWritten` | src/utils/MathOptimizer.js:72-90 | as written, `eval` runs only on the gated as-written expression and its value is returned; ungated text gives the invalid-expression error; any other failure is a gated expression on which `eval` threw, reported as "Error: " and the thrown message |
| `MathOptimizer.SolveMath` | src/utils/MathOptimizer.js:72-90 | with `cleanInput` corrected, `eval` runs only on gated text and its value is returned; a thrown error becomes "Error: " and its message; ungated text gives the invalid-expression error |
| `MathOptimizer.GateRejectsWordsAsWritten` | src/utils/MathOptimizer.js:81 | as written, the gate passes exactly the non-empty pipeline outputs with no letter and no underscore |
| `MathOptimizer.GateRejectsWords` | src/utils/MathOptimizer.js:81 | corrected, the same: the gate passes exactly the non-empty pipeline outputs with no letter and no underscore |
| `MathOptimizer.ExpressionCharsAsWritten` | src/utils/MathOptimizer.js:38-75 | as written, the pipeline leaves only kept characters, digits, operators and single spaces, and never a decimal point |
| `MathOptimizer.ExpressionChars` | src/utils/MathOptimizer.js:73-75 | corrected, the pipeline leaves only kept characters, digits, operators and single spaces |
| `MathOptimizer.EvalOnlySeesArithmeticAsWritten` | src/utils/MathOptimizer.js:80-83 | as written, whatever `eval` is, it never sees a letter or a caret |
| `MathOptimizer.EvalOnlySeesArithmetic` | src/utils/MathOptimizer.js:80-83 | corrected, whatever `eval` is, it never sees a letter or a caret |
| `MathOptimizer.DecimalPoint` | src/utils/MathOptimizer.js:72-90 | a decimal number "a.b" reaches `eval` as "ab" as written, and whole with the point kept |
| `MathOptimizer.WhatIsThreePlusFour` | src/utils/MathOptimizer.js:37-75 | "what is three plus four" becomes "3 + 4", which the gate accepts, as written and corrected alike |
| `MathOptimizer.FiveToThePowerOfTwo` | src/utils/MathOptimizer.js:66 | "5 to the power of 2" becomes "5 ** 2", which the gate accepts |
| `MathOptimizer.PleaseTellMeTwoPlusTwo` | src/utils/MathOptimizer.js:37 | as written, "please tell me 2 + 2" reaches the gate as "tell me 2 + 2" and gets the invalid-expression error whatever `eval` does; corrected, "2 + 2" is evaluated |
| `SustainPy.Take` | application/sustain.py:163 | `xs[:n]` is the first `min(n, len(xs))` elements |
| `SustainPy.ReadLines` | application/sustain.py:102 | `readlines()` yields non-empty lines |
| `SustainPy.ReadLinesConcat` | application/sustain.py:102 | the lines put back together are the file |
| `SustainPy.ReadLinesOfConcat` | application/sustain.py:102 | lines written one after another read back as the same lines |
| `SustainPy.PhraseList` | application/sustain.py:101-102 | one phrase per line, each without edge whitespace |
| `SustainPy.PyContractionsShape` | application/sustain.py:117-142 | every key starts with a non-space character, every value is one word and no value is longer than its key |
| `SustainPy.ConvertToContractions` | application/sustain.py:116-147 | contracting never lengthens the text and never adds a whitespace run |
| `SustainPy.ContractionsIdentityPy` | application/sustain.py:144-145 | text with none of the phrases as a whole word is unchanged |
| `SustainPy.ContractionsCharsPy` | application/sustain.py:144-147 | every output character comes from the text or from a contraction |
| `SustainPy.PyContractionExample` | application/sustain.py:144-145 | "DO NOT" becomes "don't": whole-word and case-insensitive |
| `SustainPy.Normalise` | application/sustain.py:112-113 | the result is single-spaced with no edge whitespace and has the input's words |
| `SustainPy.NormaliseCollapse` | application/sustain.py:112-113 | the trailing `strip()` changes nothing, and normalised text is left alone |
| `SustainPy.OptimizeText` | application/sustain.py:99-113 | the result is normalised and has the words of the text after phrase removal and contractions |
| `SustainPy.OptimizeTextIdentity` | application/sustain.py:99-113 | text with no phrase and no contraction phrase only has its whitespace normalised |
| `SustainPy.OptimizeTextBasic` | sustain.py:71-85 | the result is normalised and has the words of the text after the fixed phrases are removed |
| `SustainPy.OptimizeTextBasicIdentity` | sustain.py:71-85 | text with none of the fixed phrases only has its whitespace normalised |
| `SustainPy.TrimResponse` | application/sustain.py:70-75 | up to 20 words the text is returned as is; otherwise its first 20 words, single-spaced, then "..." |
| `SustainPy.TrimResponseWordLimit` | application/sustain.py:70-75 | a trimmed response never has more than 20 words |
| `SustainPy.CalculatePercentageSaved` | application/sustain.py:83-96 | the result is in [0, 100]; it is 0 exactly for a non-positive original, a negative response or no saving, and 100 exactly for an empty response; otherwise it is the saved share times 100 |
| `SustainPy.PercentageSavedMonotone` | application/sustain.py:83-96 | a longer response never gives a larger saving |
| `SustainPy.InputSavings` | application/sustain.py:41-42 | no tokens means 0; otherwise at most 100, non-negative exactly when optimising did not add tokens, and the saved share times 100 |
| `SustainPy.DeepOptimizeResponseAsWritten` | application/sustain.py:150-166 | as written, the result is normalised, its words are always a leading run of the words left after phrase removal, and outside the list case they are all of them |
| `SustainPy.CutKeepsWordPrefix` | application/sustain.py:161-163 | joining the first 15 pieces of `split(" ")` keeps a leading run of the text's words |
| `SustainPy.DeepListLimitAsWritten` | application/sustain.py:161-163 | as written, a list response whose only whitespace is the single space keeps at most 15 words |
| `SustainPy.DeepOptimizeResponse` | application/sustain.py:150-166 | corrected, the list case keeps the first 15 words; otherwise the result has the words left after phrase removal |
| `SustainPy.DeepListLimit` | application/sustain.py:161-163 | corrected, a list response has at most 15 words |
| `SustainPy.NewlineListKept` | application/sustain.py:161-163 | on a list of 16 newline-separated words, the as-written cut keeps all 16 and the corrected one keeps 15 |
| `SustainPy.StripDescriptions` | application/sustain.py:173 | each item becomes its part before the first colon, stripped |
| `SustainPy.ListItems` | application/sustain.py:172-174 | at most three items, one per comma-separated piece up to three, each without a comma, a colon or edge whitespace |
| `SustainPy.StripPlain` | application/sustain.py:173 | cutting a description leaves no colon, and adds no comma |
| `SustainPy.TruncateList` | application/sustain.py:170-174 | the result is at most three plain items joined by ", "; text without commas is reduced to its part before the first colon, stripped |
| `SustainPy.TruncateListOfJoin` | application/sustain.py:170-174 | a ", "-joined list of plain items reads back as its first three items, joined again |
| `SustainPy.ErrorReply` | application/sustain.py:59-67 | the quota and model-not-found codes get their fixed messages, any other error its own text, always with 0 saved |
| `SustainPy.GetResponse` | application/sustain.py:29-67 | a cached input is answered from the cache with 100 and no call; otherwise the model gets the optimised text with " in <20 words." and 50 tokens, and a success is stripped, scored and cached while an error is not cached |
| `SustainPy.GetResponseAsWritten` | application/sustain.py:29-67 | as written, a provider error on an input that is not cached escapes as `AttributeError`; every other call returns what the corrected method returns |
| `SustainPy.ProviderErrorEscapes` | application/sustain.py:60 | on an input that is not cached, every provider error escapes as written, while the corrected clause answers with the error reply and keeps the cache |
| `SustainPy.CacheReplay` | application/sustain.py:31-35 | after a successful answer, asking again replays it with 100 saved and no call |
| `SustainPy.CacheGrowsOnly` | application/sustain.py:55 | entries are never changed or dropped, and a new one is added exactly on a miss that succeeds |
| `SustainPy.GetResponseBasic` | sustain.py:12-43 | the canned question gets the fixed answer with 0.0 and no call; otherwise the model gets the optimised text with " in <30 words.", and the reply is the stripped answer or the error message |
| `SustainPy.GetResponseBasicAsWritten` | sustain.py:12-43 | as written, a provider error on any question but the canned one escapes as `AttributeError`; every other call returns what the corrected method returns |
| `SustainPy.ProviderErrorEscapesBasic` | sustain.py:37 | a provider error on any question but the canned one escapes as written, while the corrected clause answers with the error message |
| `SustainPy.CannedIgnoresCaseAndSpace` | sustain.py:14-16 | the canned question is recognised between any whitespace and in any ASCII case |

## Left out

- Network, environment and process: the provider client, the API keys, `dotenv`, logging, `console`
  and `print`. The provider's outcome is an input of each handler.
- `GET /` (a fixed health message) is not modelled.
- The Python constructor (`spacy.load`) is not modelled: the loaded language model is never used.
- `count_tokens` is not modelled: tiktoken's `cl100k_base` encoding is the parameter `tokens`.
- `recognizeMath` is not modelled: nothing in the code calls it, and it is a bare regex test.
- `eval` is the parameter `eval` of `SolveMath`: JavaScript's expression semantics are not modelled.
- JavaScript's `parseFloat` on digit strings is modelled as the exact decimal value.
  - Results are exact reals.
  - Floating-point rounding and the loss of precision past 2^53 are not modelled.
  - Overflow is not modelled: a digit string of about 310 digits or more is `Infinity` to `parseFloat`, and the model keeps its exact value.
- `toFixed(2)` / `toFixed(4)` rounding and string formatting are not modelled. Percentages and energy figures are exact reals.
- Whitespace, `\b`, `toLowerCase`/`lower()`, `strip()` and `split()` are restricted to ASCII. Unicode whitespace and case folding are not modelled.
- `Text.Words` splits at the six ASCII whitespace characters (space, tab, `\n`, `\v`, `\f`, `\r`).
  - Python's `split()` and `strip()` also split at `\x1c`-`\x1f`, which JavaScript's `\s` does not match.
  - The model treats those four characters as ordinary characters in both languages.
- `Rewrite.SquashAndTrimIsCollapse` holds for that shared whitespace set only.
  - On a text containing `\x1c`-`\x1f`, Python's `' '.join(s.split())` and the route's `replace(/\s+/g, ' ').trim()` differ, and the lemma says nothing about it.
- `SustainRoute.Sanitize` counts characters, whereas JavaScript's `substring(0, 1000)` counts UTF-16 code units.
  - A character outside the Basic Multilingual Plane is two code units, so 600 emoji are cut to 500 by the route and kept whole by the model.
  - A cut between the two halves of a surrogate pair is not modelled either.
- Python opens the phrase file in text mode. Universal-newline translation of `\r\n` is not modelled: lines split at `\n` only.
- A missing `phrases_to_remove.txt` makes Python's `optimize_text` raise. That exception is not modelled: the Python model takes the phrase list as given.
- The route reads the phrase file asynchronously at start-up. A request that arrives before the read finishes sees the empty list.
  - The model takes the loaded list.
  - The race itself is not modelled.
- `SustainPy.GetResponse` is the corrected method: its `except` clause catches the provider error, which the code as written does not (see Findings). `SustainPy.GetResponseAsWritten` says which exception escapes, not its message.
- `SustainPy.GetResponseBasic` is corrected in the same way; `SustainPy.GetResponseBasicAsWritten` models the clause at sustain.py:37 as written.
- `MathOptimizer.NumbersWordByWord`, `MathOptimizer.OpsWordByWord` and `MathOptimizer.ConvertByWords` hold for single-spaced texts whose tokens are each all word characters or all other non-space characters (and, for the operators, free of carets). On other texts the conversions are described only by their character-level contracts.
- Errors other than provider errors (a malformed provider reply, a missing `choices` entry) are not modelled.
- `SustainRoute.Co2Savings` follows the code, which tests `totalTokensSaved === 0`. A negative total would be reported as negative figures. The comment at server/routes/sustain.js:246 speaks of "no tokens saved", which the test matches only for exactly zero.
- `SustainRoute.Savings` requires a word count of at least 1. `split(/\s+/)` always yields at least one piece, so the route cannot divide by zero.

## Findings

| source | as written | input that shows it | evidently intended | confidence | as-written member | corrected member |
|---|---|---|---|---|---|---|
| src/utils/MathOptimizer.js:37 | The prefix alternation lists `please` before `please tell me`. The regex takes the first branch that matches, so the longer phrase never matches. | `"please tell me 2 + 2"` is cleaned to `"tell me 2 + 2"`. The gate then rejects it. | The whole courtesy phrase is removed, and `"2 + 2"` is evaluated. | not executed | `MathOptimizer.PleaseTellMeTwoPlusTwo` | `MathOptimizer.PleaseTellMeStripped` |
| src/utils/MathOptimizer.js:38 | The character class keeps word characters, whitespace, `+ - * / ^ ( )` but not `.`. The evaluation gate at line 81 does accept `.`. | `"1.5"` is cleaned to `"15"`, and `eval` is handed 15. | Decimal numbers pass through unchanged. | not executed | `MathOptimizer.DecimalPoint` | `MathOptimizer.PointKept` |
| application/sustain.py:60 | The `except` clause names `OpenAI.error.OpenAIError`, but `OpenAI` is the client class imported at line 12 and has no attribute `error`. The name is evaluated only once the `try` block raises, so the provider error is replaced by an `AttributeError` that leaves `get_response`. The same clause is at sustain.py:37. | A quota error from the provider on an input that is not cached. | The error is caught and answered with the quota message and 0 saved. | not executed | `SustainPy.ProviderErrorEscapes` | `SustainPy.GetResponse` |
| application/sustain.py:161-163 | The list limit splits on single spaces, so a list written one item per line is a single piece. The same code is at sustain.py:98-100. | `"1."` followed by fifteen lines `"x"` keeps all 16 words. | A list response keeps at most 15 words. | not executed | `SustainPy.NewlineListKept` | `SustainPy.DeepListLimit` |

For each finding, the corrected definition is the one the rest of the model uses:
- `MathOptimizer.CleanInput`, and through it `MathOptimizer.SolveMath`, uses both cleanInput corrections. `MathOptimizer.SolveMathAsWritten` is the method as written.
- `SustainPy.GetResponse` and `SustainPy.GetResponseBasic` catch the provider error. `SustainPy.GetResponseAsWritten` and `SustainPy.GetResponseBasicAsWritten` let it escape.
- `SustainPy.DeepOptimizeResponse` cuts at 15 words of `split()`.
