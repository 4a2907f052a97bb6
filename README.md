# Japanese sentence helper backend — a Dafny model

The backend of this Japanese-learning helper (backend/index.js) has three
POST endpoints:

- `/api/classify`: splits a Japanese text into sentences and labels each
  sentence as an imperative (命令文), a question (疑問文) or an affirmative
  (肯定文).
- `/api/translate`: translates a text into Vietnamese.
- `/api/vocab/lookup`: breaks a sentence into vocabulary entries.

Each endpoint follows the same steps:

1. It cleans the request text (`sanitizeText`).
2. It rejects empty input with status 400.
3. It asks the providers in a fixed order (the Gemini model, and for
   translation also LibreTranslate).
4. It decodes and validates each provider's reply (`parseGeminiJson`, and
   the endpoint's own filters).
5. It answers with the first usable reply, tagged with that provider's name.
6. If no provider gives a usable reply, it answers with a placeholder tagged
   `fallback`.

The model is pure: every part of the core is a function on values, and the
properties are lemmas about those functions. Strings are sequences of code
points. JSON values are the datatype `JsValues.Json`.

The modules follow the source:

- `Seqs`: filtering and concatenation of sequences.
- `JsValues`: JSON values, JavaScript truthiness and property access.
- `Text`: `String.prototype.trim` and `sanitizeText`.
- `Sentences`: `splitSentences`.
- `Decoder`: `parseGeminiJson`.
- `Labels`: `TYPE_LABELS` and `resolveTypeLabel`.
- `Classify`: the classification heuristic and the normalisation of model
  answers.
- `Vocab`: the vocabulary validation and the placeholder.
- `Handlers`: the three endpoints and their provider chain.

The environment is passed in as parameters:

- What each provider returned is an `Option` argument. `None` stands for "no
  API key, so the provider was not asked" or "the call threw". A reply that
  arrived but is not usable is `Some(reply)`, and the endpoint's validators
  reject it. Only the `outcome` of a `Handlers.Attempt` is `None` for a
  rejected reply, so the chain moves on to the next provider.
- `JSON.parse` is a parameter `jsonParse`.
- The pictographic character class of the regular-expression engine is a
  parameter `pict`. Its type, `PictClass`, only assumes that the class does
  not contain the space character.

The whitespace set of `\s` and `trim` is written out in full. It is the
ECMAScript WhiteSpace and LineTerminator characters, U+3000 and U+FEFF among
them.

Some facts about the code that a reader might not expect:

- `sanitizeText` is not idempotent. It trims before it deletes pictographs,
  so `"😀 a"` becomes `" a"`, and a second pass gives `"a"`
  (`Text.SanitizeNotIdempotent`). It is idempotent on input without
  pictographic characters (`Text.SanitizeIdempotent`). In general, a second
  pass only trims (`Text.SanitizeTwice`).
- The label field of a classified sentence is `typeVi`.
- Vocabulary entries are passed through as the model sent them, not trimmed.
  An entry is kept only if it has a `kanji` property, a truthy `reading` and
  `meaning`, and nonempty `synonyms` and `examples` arrays. The answer also
  needs a string `mainTranslation` (`Vocab.AcceptVocab`).
  `Handlers.VocabFencedWithoutTranslation` shows a reply without
  `mainTranslation` falling back to the placeholder.
- The splitter removes every `?` and `？`, so the heuristic's question-mark
  test never holds on a sentence it receives. Only the particle か makes a
  question (`Classify.QuestionMarkNeverDecides`).

The model follows the code, with one exception: the label lookup. The
classification path uses the corrected own-key lookup
(`Labels.ResolveTypeLabel`). The lookup as written, which also finds names
inherited from `Object.prototype`, is modelled beside it
(`Labels.ResolveTypeLabelAsWritten`, see Findings).

## Model

| member | source | states |
|---|---|---|
| Text.Trim | backend/index.js:28 | `trim()` leaves no whitespace at either end; its result is empty exactly when the input is all whitespace; text already without edge whitespace is returned unchanged |
| Text.TrimIsSlice | backend/index.js:28 | what `trim()` keeps is one contiguous slice of the input, and everything it drops on either side is whitespace |
| Text.TrimChars | backend/index.js:28 | `trim()` introduces no character that was not in the input |
| Text.TrimSkipsWs | backend/index.js:28 | whitespace added at either end of a text does not change its trim |
| Text.TrimKeepsNone | backend/index.js:28 | a character class absent from a text is absent from its trim |
| Text.RemovePictographs | backend/index.js:29-33 | the pictograph pass: the characters outside the class, in order (properties in `Text.RemovePictographsClean`) |
| Text.ReplaceCrTab | backend/index.js:35 | the carriage-return and tab pass, an instance of `Text.ReplaceRuns` with runs of one or more |
| Text.CollapseWs | backend/index.js:36 | the whitespace pass, an instance of `Text.ReplaceRuns` with runs of two or more |
| Text.ReplaceRuns | backend/index.js:34-36 | the global run replacement gives empty output exactly for empty input, and every output character is an input character or the space |
| Text.ReplaceRunsNoAdjacent | backend/index.js:34-36 | after replacing the runs of length one or more (or two or more), no two class characters are adjacent |
| Text.ReplaceRunsRemovesClass | backend/index.js:35 | replacing every run of carriage returns and tabs by a space leaves none of them |
| Text.ReplaceRunsNoClass | backend/index.js:35 | text without class characters is left unchanged |
| Text.ReplaceRunsNoAdjacentUnchanged | backend/index.js:36 | text with no two adjacent whitespace characters is left unchanged by the collapse of runs of two or more |
| Text.ReplaceRunsAround | backend/index.js:35-36 | a maximal run of at least `minRun` class characters, between text that does not end and text that does not start with a class character, becomes exactly one space, and the text on either side is replaced on its own |
| Text.ReplaceRunsShortRun | backend/index.js:36 | a maximal run shorter than `minRun` is kept as it is, and the text on either side is replaced on its own |
| Text.ReplaceRunsSplit | backend/index.js:34-36 | a maximal run between text that does not end and text that does not start with a class character is replaced on its own, by one space when it is at least `minRun` long and by itself otherwise |
| Text.CollapseDoubleSpace | backend/index.js:36 | two spaces between two non-whitespace characters collapse to one, as `"a  b"` becomes `"a b"` |
| Text.ReplaceRunsKeepsLast | backend/index.js:34-36 | a last character outside the class is still the last character after the replacement |
| Text.RemovePictographsClean | backend/index.js:29-33 | deleting the pictographic class leaves no pictographic character, and text without one is unchanged |
| Text.Sanitize | backend/index.js:27-38 | `sanitizeText`: the four stages in the source's order; every output character is an input character or a space |
| Text.SanitizeKeeps | backend/index.js:27-38 | the sanitiser keeps exactly the characters that are neither whitespace nor pictographic, in their order: only whitespace is added, merged or dropped |
| Text.SanitizeClean | backend/index.js:27-38 | sanitised text has no pictographic character, no carriage return or tab, and no two adjacent whitespace characters |
| Text.SanitizeNoEdgeWs | backend/index.js:27-38 | if the input has no pictographic character, sanitised text has no whitespace at either end |
| Text.SanitizeFixedPoint | backend/index.js:27-38 | trimmed text without pictographs, carriage returns, tabs or adjacent whitespace is sanitised to itself |
| Text.SanitizeTwice | backend/index.js:27-38 | a second sanitising pass only trims the first pass's output |
| Text.SanitizeIdempotent | backend/index.js:27-38 | sanitising is idempotent on inputs without pictographic characters |
| Text.SanitizeEmpty | backend/index.js:27-38 | sanitised text is empty exactly when the trimmed input consists of pictographic characters only |
| Text.SanitizeEmptyIffBlank | backend/index.js:27-38 | without pictographs in the input, sanitised text is empty exactly when the input is blank |
| Text.SanitizeExposesSpace | backend/index.js:27-38 | a pictograph, a space and another character sanitise to a space and that character, and a second pass drops the space |
| Text.SanitizeSeparatesWords | backend/index.js:27-38 | two non-whitespace characters separated by a space, a tab and a space, as in `"a \t b"`, sanitise to those characters separated by exactly one space, for any class holding none of the characters |
| Text.SanitizeNotIdempotent | backend/index.js:27-38 | for any class holding U+1F600 and not `a`, `"😀 a"` sanitises to `" a"` and `" a"` sanitises to `"a"` |
| Sentences.Pieces | backend/index.js:42 | the regex `split`: the text between maximal runs of terminators, always at least one piece |
| Sentences.PiecesAround | backend/index.js:42 | text without terminators, then a maximal run of terminators, then the rest, splits into that text followed by the pieces of the rest |
| Sentences.PiecesHaveNoTerminator | backend/index.js:42 | no piece of the split holds a terminator |
| Sentences.PiecesCover | backend/index.js:42 | the pieces of the split, concatenated, are exactly the non-terminator characters of the text in their order |
| Sentences.TrimAll | backend/index.js:43 | `.map((part) => part.trim())`: one trimmed piece per piece, in order |
| Sentences.SplitSentences | backend/index.js:40-45 | every sentence is nonempty, has no edge whitespace and holds no terminator |
| Sentences.SplitCovers | backend/index.js:40-45 | the sentences together hold exactly the characters of the text that are neither whitespace nor terminators, in order |
| Sentences.SplitEmptyIff | backend/index.js:40-45 | the splitter yields no sentence exactly when the text consists of whitespace and terminators only |
| Sentences.SplitWithoutTerminator | backend/index.js:40-45 | text without terminators yields its trimmed self, or nothing when it is blank |
| Sentences.SplitKeepsClean | backend/index.js:40-45 | the sentences of sanitised-clean text are clean, so sanitising a sentence again returns it unchanged |
| Sentences.SplitTwoSentences | backend/index.js:40-45 | two characters that are neither whitespace nor terminators, joined by 。 as in `"a。b"`, split into two one-character sentences |
| Sentences.OneTerminatedSentence | backend/index.js:40-45 | a trimmed sentence followed by one terminator splits into that one sentence |
| Decoder.StripOpeningFence | backend/index.js:51 | removing an opening fence leaves a suffix of the text that does not start with whitespace; text without a fence is unchanged |
| Decoder.StripClosingFence | backend/index.js:52 | one closing fence at the very end is removed, and nothing else changes |
| Decoder.StripTag | backend/index.js:51 | the optional `json`/`JSON` group after the opening fence: what is left is a suffix of the text |
| Decoder.TagStrip | backend/index.js:51 | an empty, `json` or `JSON` tag followed by text that cannot extend it is removed exactly |
| Decoder.Payload | backend/index.js:49-53 | the text handed to `JSON.parse` has no edge whitespace, is no longer than the reply, and is the trimmed reply when that has no fence |
| Decoder.OrNull | backend/index.js:54-58 | a parse that succeeds gives its value; a `SyntaxError` gives `null` |
| Decoder.ParseGeminiJson | backend/index.js:47-59 | a reply that is not a string decodes to `null`; a string decodes to the parse of its payload, or `null` when that does not parse |
| Decoder.ParseUnfenced | backend/index.js:47-59 | a reply without a fence is parsed after trimming only |
| Decoder.ParseIgnoresEdgeWs | backend/index.js:49 | whitespace around a reply never changes what it decodes to |
| Decoder.FenceRoundTrip | backend/index.js:47-59 | wrapping a payload in a fence (with or without a `json`/`JSON` tag, with whitespace inside and around) and decoding gives the parse of the payload |
| Labels.ResolveTypeLabel | backend/index.js:61-70 | the result is always a label; it is the unknown label exactly when the value is not a string whose trim is a known type, and the table's label for that trim otherwise |
| Labels.LabelsDistinct | backend/index.js:61-65 | the three types have three different labels |
| Labels.LabelDeterminesType | backend/index.js:61-70 | two types with the same known label have the same trim |
| Labels.KnownLabels | backend/index.js:61-70 | each of 命令文, 疑問文 and 肯定文 resolves to its own label |
| Labels.LookupAsWritten | backend/index.js:69 | property lookup on the object literal finds nothing exactly when the key is neither an own key nor a name inherited from `Object.prototype` |
| Labels.ResolveTypeLabelAsWritten | backend/index.js:67-70 | `resolveTypeLabel` returns an inherited `Object.prototype` member exactly when the trimmed type is an inherited name |
| Labels.AsWrittenAgrees | backend/index.js:67-70 | the lookup as written agrees with the own-key lookup exactly on values whose trim is not an inherited name |
| Labels.ConstructorIsNotALabel | backend/index.js:67-70 | the type `"constructor"` resolves to `Object` itself, where the own-key lookup gives the unknown label |
| Classify.HeuristicType | backend/index.js:149-151 | a command ending makes an imperative; otherwise a final question mark or the particle か makes a question; otherwise the sentence is affirmative (each as an if-and-only-if) |
| Classify.MainIdea | backend/index.js:152 | the placeholder main idea quoting the normalised sentence |
| Classify.ActionSuggestion | backend/index.js:153-157 | each heuristic type gets its own suggestion text |
| Classify.HeuristicEntry | backend/index.js:147-159 | the heuristic entry keeps the sentence, sanitises it for `normalized`, and carries its type, that type's label, its suggestion and the main idea of its normalised text |
| Classify.HeuristicClassify | backend/index.js:147-159 | one heuristic entry per sentence, in order |
| Classify.QuestionMarkNeverDecides | backend/index.js:147-151 | no sentence from the splitter ends with a question mark, so a sentence is a question exactly when it has no command ending and contains か |
| Classify.HeuristicNormalizedIsOriginal | backend/index.js:106-148 | for the sentences of a sanitised request, the heuristic entry's normalised text equals its original |
| Classify.TrimmedField | backend/index.js:122-126 | a string field of an item is taken trimmed; any other value gives the default |
| Classify.NormalizeItem | backend/index.js:121-134 | each of `original`, `normalized`, `type`, `mainIdea` and `actionSuggestion` is the item's string field trimmed when present; missing ones fall back (original to the request's sentence at that index or the empty string, normalized to original, type to 肯定文, the others to the empty string), and `typeVi` is the resolved label |
| Classify.NormalizeAll | backend/index.js:120-135 | one normalised entry per model item, with its index |
| Classify.AnswerItems | backend/index.js:119 | the `sentences` array of a truthy model answer, if it is an array |
| Classify.HasOriginal | backend/index.js:136 | `.filter((item) => item.original)`: an item is kept exactly when its `original` is not the empty string |
| Classify.AcceptClassification | backend/index.js:119-139 | a model answer is accepted exactly when it has a `sentences` array with an item whose normalised `original` is not empty; the accepted entries are nonempty and each carries an `original` and a label |
| Classify.AcceptKeepsOrder | backend/index.js:120-136 | the accepted entries are a subsequence of the normalised items, in the answer's order, and include every normalised item with a nonempty `original` |
| Classify.ItemBorrowsSentence | backend/index.js:122 | an item without `original` borrows the request's sentence at its index and is kept |
| Vocab.IsValidVocabEntry | backend/index.js:242-246 | the entry filter: `kanji` present, `reading` and `meaning` truthy, `synonyms` and `examples` nonempty arrays |
| Vocab.AcceptVocab | backend/index.js:240-250 | a model answer is accepted exactly when it is truthy, has a string `mainTranslation`, a nonempty `vocabList` array without `null` entries, and at least one valid entry; the result carries that translation and only valid entries |
| Vocab.AcceptVocabKeeps | backend/index.js:242-246 | the accepted entries are a subsequence of `vocabList` and include every valid entry |
| Vocab.PlaceholderEntry | backend/index.js:262-278 | the one placeholder entry built from the sentence |
| Vocab.VocabPlaceholder | backend/index.js:259-281 | the placeholder has one entry whose `reading` is the sentence, and that entry is valid for a nonempty sentence |
| Vocab.PlaceholderIsAccepted | backend/index.js:240-281 | the placeholder, given back as a model answer, passes the backend's own validation unchanged |
| Handlers.RequestText | backend/index.js:105 | a string field of the body is taken as is; anything else gives the empty string |
| Handlers.ProviderTagInjective | backend/index.js:138-280 | the three `provider` strings differ, so a response's tag tells which provider answered |
| Handlers.FirstSuccess | backend/index.js:165-196 | the chain answers with the first provider that succeeds, and with the placeholder tagged fallback when none does |
| Handlers.TwoProviders | backend/index.js:170-195 | with two providers, the second is consulted only when the first fails |
| Handlers.FailuresAreSkipped | backend/index.js:165-196 | failed providers before the rest of the chain make no difference |
| Handlers.LaterProvidersIgnored | backend/index.js:165-196 | once a provider has succeeded, the providers after it are never consulted |
| Handlers.RequestSentences | backend/index.js:105-107 | the sentences of the sanitised request text |
| Handlers.GeminiClassification | backend/index.js:117-139 | the model's reply decoded and accepted, or nothing when there was no reply |
| Handlers.ClassifyHandler | backend/index.js:104-162 | status 400 with "No text provided" exactly when the text has no sentence; otherwise a nonempty list of entries that each have an `original` and a label; tagged gemini exactly when the model's answer is accepted, and then the body is that accepted answer; else the heuristic entries tagged fallback |
| Handlers.ClassifyRejectsIff | backend/index.js:105-110 | the classifier answers 400 exactly when the sanitised text consists of whitespace and terminators only, whatever the model says |
| Handlers.ClassifyFallbackEntries | backend/index.js:147-161 | a fallback answer has one entry per sentence, with original and normalized equal to the sentence and the heuristic type |
| Handlers.ClassifyWithoutModel | backend/index.js:113-161 | without a model reply, a request with sentences gets the heuristic classification tagged fallback |
| Handlers.ClassifyCommandWithoutModel | backend/index.js:104-162 | a command ending in ください followed by 。, sent without a model, gives one imperative entry labelled "Câu mệnh lệnh" tagged fallback |
| Handlers.ClassifyTabeteKudasai | backend/index.js:104-162 | the request `食べてください。` without a model gives that imperative entry |
| Handlers.GeminiTranslation | backend/index.js:174-175 | a model reply is used exactly when it is a string that is not blank, and it is used trimmed |
| Handlers.LibreTranslation | backend/index.js:189-190 | LibreTranslate's `translatedText` is used exactly when it is present and truthy, and it is used as is |
| Handlers.FallbackTranslation | backend/index.js:195 | the placeholder translation quoting the text |
| Handlers.TranslateHandler | backend/index.js:165-196 | status 400 exactly when the sanitised text is empty; otherwise `jp` is the sanitised text and `vi` is truthy; tagged gemini exactly when the model's reply is usable, and `vi` is then the trimmed reply; tagged libretranslate exactly when only LibreTranslate's is, and `vi` is then its `translatedText`; else the placeholder text |
| Handlers.TranslateRejectsIff | backend/index.js:166-168 | the translator answers 400 exactly when the trimmed text consists of pictographic characters only |
| Handlers.TranslateGeminiFirst | backend/index.js:170-180 | a usable model translation makes LibreTranslate's answer irrelevant |
| Handlers.GeminiVocab | backend/index.js:236-250 | the model's reply decoded and accepted, or nothing when there was no reply |
| Handlers.VocabHandler | backend/index.js:199-285 | status 400 with "No input provided" exactly when the sanitised input is empty; otherwise nonempty valid entries; tagged gemini exactly when the model's answer is accepted, and then the body is that accepted answer; else the placeholder of the sentence tagged fallback |
| Handlers.VocabFencedWithoutTranslation | backend/index.js:238-284 | a fenced model reply whose JSON lacks a string `mainTranslation` is rejected and the placeholder is sent |

## Left out

- The HTTP server is not modelled: Express, CORS, body parsing, `/api/ping`,
  the 404 handler and `listen` (backend/index.js:1-25, 98-101, 287-291).
  Each handler is a function from the request body to a status and a body.
- The network calls are not modelled: `callGemini` (backend/index.js:74-95),
  the API-key check and the LibreTranslate request. What each of them
  returned is a parameter, and an absent key or a thrown error is `None`.
- The prompt texts and all `console` logging are not modelled. They do not
  affect any response.
- `JSON.parse` is a parameter. The model does not define JSON syntax.
- Unicode property classes (`\p{Extended_Pictographic}`,
  `\p{Emoji_Presentation}`) are a parameter of type `PictClass`. The model
  has no Unicode tables.
- The `catch` branch of `sanitizeText` (backend/index.js:31-33) is not
  modelled as a separate branch. Its range U+1F300..U+1FAFF does not contain
  the space, so it is one more `PictClass`, and every lemma about
  `Text.Sanitize` holds for it as for the property-escape class. Whether
  the branch can be reached depends on the engine: where an invalid
  regular-expression literal is an early error, the script does not load;
  where literals are compiled lazily, the `catch` runs.
- UTF-16 code units are not modelled: a string is a sequence of code points.
  Four patterns have no `u` flag:
  - `/[\r\t]+/g` (backend/index.js:35) matches carriage returns and tabs;
  - `/\s{2,}/g` (backend/index.js:36) matches whitespace;
  - `/(?:。|！|!|\?|？)+/` (backend/index.js:42) matches the sentence
    terminators;
  - `/[？?]$/` (backend/index.js:150) matches question marks.

  All of these characters lie in the Basic Multilingual Plane and none is a
  surrogate. So matching code units and matching code points give the same
  result, and this makes no difference.
- JSON numbers are reals, not IEEE doubles. Only their truthiness matters
  here, and `0` is falsy in both.
- The serialisation of responses by `res.json` is not modelled. For example,
  an inherited function value in `typeVi` would be dropped from the JSON
  text.
- `String(input)` in `sanitizeText` only matters for non-strings, and every
  caller passes a string, so it is not modelled.
- The React front end (react-app/) is not part of this model.
- Decoder.FenceRoundTrip: requires `TagIsUnambiguous`, which excludes an
  untagged fence glued directly to a payload starting with `j` or `J`. Such
  a payload can lose a leading `json` or `JSON` to the optional tag group.
  The exclusion is wider than that case, but no JSON text starts with
  either letter.
- Labels.ResolveTypeLabel: the rest of the model uses this corrected
  own-key lookup. The lookup as written, with inherited names, is
  `Labels.ResolveTypeLabelAsWritten` (see Findings).

## Findings

| source | as written | input that shows it | evidently intended | confidence | as-written member | corrected member |
|---|---|---|---|---|---|---|
| backend/index.js:61-70 | `TYPE_LABELS[type.trim()] \|\| 'Không xác định'` reads a plain object literal, so names inherited from `Object.prototype` are found too | a model answer with `"type": " constructor"` gives `typeVi` = the `Object` function, not a label | only the three type names are looked up; any other type gets `Không xác định` | not executed | Labels.ConstructorIsNotALabel | Labels.ResolveTypeLabel |
