# BULB tutoring engine in Dafny

BULB is a Socratic coding tutor. Its server has two core files.

- `misconceptions.ts` holds the tutoring logic, but nothing else in the server calls it. It
  exports these functions:
  - a session state with a confidence ledger over eight programming misconceptions;
  - `applyVerdicts`, which updates that ledger from a classifier's verdicts;
  - `pickTopMisconception`, `inferIntentAndConfidence` and `chooseStrategy`;
  - `sanitizeUserInput`, `hardValidateQuestion` and `fallbackQuestion`.
- `gemini.ts` talks to the language model. The `/chat` route passes the learner's
  message, the history and the editor context to `chatWithGemini`. That call retries on
  overload and cuts the reply down to a single question with `sanitizeToSingleQuestion`.
  The route returns that question without validating it.

This project models both files and proves their properties:

- `wrappers.dfy`: an `Option` type.
- `js_strings.dfy` (module `JsStrings`): the JavaScript string operations the engine
  relies on. These are ASCII `toLowerCase`, the `\s` whitespace class, `includes`,
  `indexOf`/`lastIndexOf`, `trim`, `replace(/\s+/g, ' ')`, `split` and `join`, with their
  round trips and shape lemmas.
- `ordered_map.dfy` (module `OrderedMap`): a JavaScript `Map` as its list of entries in
  insertion order.
  - `set` on a present key keeps its place; on a new key it appends.
  - `delete` removes the key, so a delete followed by a set moves the key last.
  - This order decides ties in `pickTopMisconception`.
- `misconceptions.dfy` (module `Misconceptions`): the session state as a class whose
  `ledger` field is the source's `map`.
  - `applyVerdicts` is a method with the source's two loops. It is proved equal to a pure
    fold (`ApplyVerdictsSpec`), and the update rules are proved as lemmas about that fold.
  - `pickTopMisconception` is a loop over the entries.
  - `createSessionState` is the class constructor; `snapshotState` is a function.
- `decisions.dfy` (module `Decisions`): `chooseStrategy`, `classifyMessageIntent` and
  `inferIntentAndConfidence`.
- `questions.dfy` (module `Questions`): `sanitizeUserInput`, `hardValidateQuestion` and
  `fallbackQuestion`.
- `gemini.dfy` (module `Gemini`):
  - `sanitizeToSingleQuestion`;
  - the role mapping of the chat history;
  - the retry and backoff loop of `chatWithGemini`. The vendor call is an oracle
    `send(attempt)` that either replies with text or fails with an error message.
    The method returns what the source returns or throws, the number of attempts made,
    and the waits between them in milliseconds.

Confidences are mathematical reals. Strings are sequences of characters.

At these points the model follows the code exactly:

- The resolution test is a strict `< 0.18`. A tag that decays to exactly 0.18 (from 0.2)
  stays active. `DecayToThresholdStaysActive` states this.
- The doubt phrase is `i'm not sure`. A message that says "not sure" without "i'm" does
  not count as doubt, so the 0.08 reduction does not apply to it.
- A `new` verdict sets 0.43 whatever the prior confidence.
- `sanitizeUserInput` deletes tab, line feed and carriage return as control characters
  before it collapses whitespace. They never become spaces.
- `sanitizeToSingleQuestion` returns the default question for every reply without a
  `?`. The converse does not hold: a reply that is the default question itself has a `?`
  and gives the default back (`DefaultFromQuestion`).

## Model

| member | source | states |
|---|---|---|
| OrderedMap.Get | server/src/misconceptions.ts:112 | `map.get`: absent exactly when the key is not in the map; a present value is the one stored with the key |
| OrderedMap.Set | server/src/misconceptions.ts:137 | `map.set`: an existing key keeps its position, a new key is appended; the key reads back the new value and every other key reads as before |
| OrderedMap.Delete | server/src/misconceptions.ts:134 | `map.delete`: the key is gone, every other key reads as before, no entry is invented, an absent key leaves the map unchanged (the order of the rest is `DeleteRemovesEntry`) |
| OrderedMap.DeleteRemovesEntry | server/src/misconceptions.ts:134 | in a map with unique keys, deleting the key of entry i removes exactly that entry; the other entries keep their order |
| OrderedMap.SetAppends | server/src/misconceptions.ts:137 | `set` on an absent key appends one entry at the end and changes nothing else |
| OrderedMap.SetKeepsValid | server/src/misconceptions.ts:137 | `set` keeps keys unique |
| OrderedMap.DeleteKeepsValid | server/src/misconceptions.ts:134 | `delete` keeps keys unique |
| OrderedMap.DeleteThenSetMovesLast | server/src/misconceptions.ts:133-138 | deleting the key of entry i and setting it again gives the other entries in their old order, then that key with its new value |
| OrderedMap.GetEntry | server/src/misconceptions.ts:163 | in a map with unique keys, each entry's key reads back that entry's value |
| Misconceptions.Clamp | server/src/misconceptions.ts:86 | the result lies in [0, 1], equals the input inside [0, 1], and is 0 below and 1 above |
| Misconceptions.NextConfidence | server/src/misconceptions.ts:112-130 | the clamped per-status rule for a prior in [0, 1]: `new` gives exactly 0.43; `reinforced` adds 0.22 up to 0.78 and gives 1 above; `weakened` subtracts 0.18 from 0.18 up and gives 0 below; `absent` multiplies by 0.9 |
| Misconceptions.DecayedConfidence | server/src/misconceptions.ts:146 | an active confidence in [0, 1] is multiplied by 0.9; the result stays in [0, 1] |
| Misconceptions.MisconceptionState.constructor | server/src/misconceptions.ts:94-102 | `createSessionState`: empty map, learner confidence 0.5, no last question, empty summary, turn 0 |
| Misconceptions.ApplyVerdicts | server/src/misconceptions.ts:104-159 | the method's new map, deltas and resolution events are those of the verdict fold followed by the decay fold in taxonomy order; the map keeps unique keys, and every confidence left in it lies in [0.18, 1] |
| Misconceptions.ApplyVerdict | server/src/misconceptions.ts:111-139 | one pass of the verdict loop updates the map, deltas and events exactly as `VerdictStep` says |
| Misconceptions.DecayTag | server/src/misconceptions.ts:142-156 | one pass of the decay loop updates the map, deltas and events exactly as `DecayStep` says |
| Misconceptions.VerdictStepRule | server/src/misconceptions.ts:112-138 | a missing tag starts from 0.32; delta = next - prev; below 0.18 the tag is deleted and appended to the events, otherwise it is set; no other tag or delta changes |
| Misconceptions.WeakenedOnInactiveTagResolves | server/src/misconceptions.ts:112-135 | `weakened` on an inactive tag resolves it at once with delta -0.18 |
| Misconceptions.NewVerdictGivesFixedConfidence | server/src/misconceptions.ts:122-137 | `new` leaves the tag at 0.43 and never resolves it |
| Misconceptions.ApplyVerdictsBounded | server/src/misconceptions.ts:86-153 | after `applyVerdicts` every confidence still in the map lies in [0.18, 1] |
| Misconceptions.ApplyVerdictsKeepsValid | server/src/misconceptions.ts:104-159 | `applyVerdicts` keeps the map's keys unique |
| Misconceptions.VerdictStepKeeps | server/src/misconceptions.ts:111-139 | one verdict keeps keys unique, leaves its tag in bounds when still active, and changes no other tag's confidence, delta or event |
| Misconceptions.VerdictPassTouchesOnlyMentioned | server/src/misconceptions.ts:111-139 | after the verdict loop, mentioned active tags are in bounds, and unmentioned tags keep their value with no delta and no event |
| Misconceptions.UnmentionedTagDecaysOnce | server/src/misconceptions.ts:141-156 | an unmentioned active tag is multiplied by 0.9 exactly once. It resolves with delta -prev exactly when the result is below 0.18, and otherwise gets delta next - prev. An unmentioned inactive tag stays out of the map, the deltas and the events |
| Misconceptions.DecayEventsInTaxonomyOrder | server/src/misconceptions.ts:142-150 | the events are the verdict loop's events, then the unmentioned tags that decay below 0.18, in taxonomy order |
| Misconceptions.DecayToThresholdStaysActive | server/src/misconceptions.ts:146-147 | the test is strict: an unmentioned tag at 0.2 decays to 0.18 and stays active |
| Misconceptions.DecayPassKeepsOthers | server/src/misconceptions.ts:142-156 | the decay loop leaves mentioned, inactive and unvisited tags exactly as they were, and only appends events |
| Misconceptions.DecayPassVisitsOnce | server/src/misconceptions.ts:142-156 | over distinct tags, each unmentioned active tag decays once, from its value when the loop started |
| Misconceptions.DecayPassEvents | server/src/misconceptions.ts:147-150 | over distinct tags, the decay loop appends exactly the resolving tags, in visiting order |
| Misconceptions.AfterDecayAppend | server/src/misconceptions.ts:142 | the decay loop over a concatenation is the loop over the first part, then over the second |
| Misconceptions.MentionedIff | server/src/misconceptions.ts:143 | `verdicts.some(v => v.id === item.id)` holds exactly when some verdict carries the tag |
| Misconceptions.TaxonomyListsEveryTagOnce | server/src/misconceptions.ts:142 | the taxonomy visits every tag, and none twice |
| Misconceptions.PickTopMisconception | server/src/misconceptions.ts:161-169 | `None` exactly for an empty map. Otherwise it returns an entry of the map whose confidence is at least every other, and every earlier entry is strictly lower (first wins on ties) |
| Misconceptions.SnapshotState | server/src/misconceptions.ts:303-312 | one entry per map entry in iteration order, each with the map's value for its key, plus the scalar fields unchanged |
| Decisions.ChooseStrategy | server/src/misconceptions.ts:173-186 | each strategy exactly when its row of the table applies: top confidence above 0.75 → conceptual contrast; else debugging → narrowing iff learner confidence above 0.55; explanation → reflective; otherwise diagnostic |
| Decisions.StrategyWithoutTop | server/src/misconceptions.ts:176-185 | without a top misconception the intent alone decides, and learner confidence matters only for debugging |
| Decisions.StrategyMonotoneInLearnerConfidence | server/src/misconceptions.ts:179-180 | raising the learner's confidence can only turn diagnostic into narrowing |
| Decisions.ClassifyMessageIntent | server/src/misconceptions.ts:190-209 | each intent exactly when it is the first of solution request, debugging, clarification that applies; conceptual when none does |
| Decisions.QuestionMarkMeansDebugging | server/src/misconceptions.ts:198-201 | a `?` in a message that does not ask for the solution makes it a debugging request |
| Decisions.ClassifyIgnoresCase | server/src/misconceptions.ts:191 | lower-casing the message first does not change its class |
| Decisions.CoarseIntentOf | server/src/misconceptions.ts:213-220 | explanation exactly when the text contains `explain` or `why`; otherwise debugging exactly when it contains `?` |
| Decisions.AdjustedConfidence | server/src/misconceptions.ts:222-229 | the adjusted learner confidence lies in [0, 1] |
| Decisions.InferIntentAndConfidence | server/src/misconceptions.ts:211-234 | the coarse intent, the adjusted confidence (in [0, 1]) and the message intent of `classifyMessageIntent` |
| Decisions.ConfidenceNudges | server/src/misconceptions.ts:222-229 | for a prior in [0.08, 0.96]: doubt subtracts 0.08, a hedge adds 0.04, both subtract 0.04 |
| Decisions.ConfidenceMonotone | server/src/misconceptions.ts:222-229 | a higher prior never yields a lower confidence |
| Decisions.ConfidenceDirection | server/src/misconceptions.ts:222-229 | doubt alone never raises the confidence, and a hedge alone never lowers it |
| Questions.RemoveControl | server/src/misconceptions.ts:238 | no control character remains, and text without control characters is unchanged |
| Questions.RemoveControlAddsNothing | server/src/misconceptions.ts:238 | every character of the result comes from the input |
| Questions.RemoveControlAppend | server/src/misconceptions.ts:238 | removal works character by character: a concatenation maps to the concatenation of the results |
| Questions.RemoveControlOne | server/src/misconceptions.ts:238 | a single character is dropped exactly when it is a control character; with the row above, every other character is kept, in order |
| Questions.SanitizeUserInput | server/src/misconceptions.ts:236-241 | the output has no control character, only plain spaces, no two adjacent whitespace characters and no leading or trailing whitespace; its words are those of the input without control characters, in the same order |
| Questions.SanitizeAddsNothing | server/src/misconceptions.ts:236-241 | every non-whitespace character of the output occurs in the input |
| Questions.SanitizeIdempotent | server/src/misconceptions.ts:236-241 | sanitising twice equals sanitising once |
| Questions.HardValidateQuestion | server/src/misconceptions.ts:243-273 | valid exactly when no shape rule fires and the question is not too similar to a non-empty previous one. The reason is absent exactly when valid; it is the similarity reason whenever similarity fires, else the shape reason |
| Questions.ShapeRejections | server/src/misconceptions.ts:244-271 | more than one `?`, or more than 160 characters, is never valid |
| Questions.RepeatIsTooSimilar | server/src/misconceptions.ts:252-272 | a question whose normal form equals that of a non-empty previous question is invalid, with the similarity reason |
| Questions.NoPreviousOnlyShape | server/src/misconceptions.ts:252 | with no previous question, or an empty one, only the shape rules decide |
| Questions.SimilaritySymmetric | server/src/misconceptions.ts:257-267 | the similarity check does not depend on which question came first |
| Questions.Similarity | server/src/misconceptions.ts:261-264 | the word overlap lies in [0, 1]; its denominator is never 0 |
| Questions.WordSet | server/src/misconceptions.ts:261-262 | a word set is never empty, because splitting never yields an empty list |
| Questions.FallbackQuestion | server/src/misconceptions.ts:276-297 | every fallback, for each tag and for no tag, ends in `?` and is at most 160 characters long |
| Questions.CodeWordAnyCase | server/src/misconceptions.ts:245 | the word `code`, in any letter case and standing alone, counts as code |
| Questions.OrdinalStepsAnyCase | server/src/misconceptions.ts:246 | `first,` in any letter case counts as a list of steps |
| Questions.Normalize | server/src/misconceptions.ts:253-254 | the normal form has only lower-case letters, digits and whitespace, with none at either end |
| Questions.NormalizeIgnoresCase | server/src/misconceptions.ts:253-254 | lower-casing a question first does not change its normal form |
| Questions.NormalizeIgnoresPunctuation | server/src/misconceptions.ts:253-254 | a character that is not a letter, a digit or whitespace changes nothing, wherever it stands in the question |
| Questions.KeepAlnumOrSpaceAppend | server/src/misconceptions.ts:254 | the `[^a-z0-9\s]` filter works character by character: a concatenation maps to the concatenation of the results |
| Questions.KeepAlnumOrSpaceOne | server/src/misconceptions.ts:254 | a single character is kept exactly when it is a lower-case letter, a digit or whitespace |
| Gemini.StripMarkup | server/src/gemini.ts:18 | no backtick or asterisk remains, and text without them is unchanged |
| Gemini.StripMarkupAddsNothing | server/src/gemini.ts:18 | every character of the result comes from the reply |
| Gemini.StripMarkupAppend | server/src/gemini.ts:18 | stripping works character by character: a concatenation maps to the concatenation of the results |
| Gemini.StripMarkupOne | server/src/gemini.ts:18 | a single character is dropped exactly when it is a backtick or an asterisk; with the row above, every other character is kept, in order |
| Gemini.Cleaned | server/src/gemini.ts:17-20 | the cleaned reply has no markup, only single plain spaces and no space at either end; its words are those of the reply without markup, in the same order |
| Gemini.CleanedFromText | server/src/gemini.ts:17-20 | cleaning adds no character except the space |
| Gemini.NewlineBoundaryDead | server/src/gemini.ts:19-29 | the cleaned text holds no line break, so the `'\n'` boundary is never found |
| Gemini.Boundary | server/src/gemini.ts:29 | the last position of `.`, `!` or a line break, or -1; nothing after it is a boundary |
| Gemini.ClauseStart | server/src/gemini.ts:29-30 | the clause starts at 0 or right after a boundary, and nothing from there up to the clause's end is a boundary |
| Gemini.LastClause | server/src/gemini.ts:22-30 | the clause is a non-empty slice of the cleaned text that ends at the first `?`, holds no boundary, and starts at the beginning of the text or right after a boundary |
| Gemini.SanitizeClause | server/src/gemini.ts:22-44 | when the cleaned reply has a `?`, the result is its trimmed last clause; if that clause has more than 20 words, the result is its first 20 words joined by single spaces and followed by `?` |
| Gemini.SanitizeToSingleQuestion | server/src/gemini.ts:16-45 | no `?` after cleaning gives the default question. Otherwise the result is clean, has at most 20 words, no `` ` ``, `*`, `.` or `!`, and exactly one `?`, at its end |
| Gemini.CapWordsShape | server/src/gemini.ts:32-38 | capping a clean question to 20 words keeps it a clean single question with at most 20 words |
| Gemini.CapWordsMarks | server/src/gemini.ts:32-44 | a clean single question of more than 20 words becomes its first 20 words joined by spaces plus `?`; a shorter one is returned as it is |
| Gemini.Finish | server/src/gemini.ts:40-44 | the result ends in `?`; the empty question becomes the default one; a non-empty question is kept as a prefix and gains at most one character; one already ending in `?` is unchanged |
| Gemini.SanitizeFixesWellFormed | server/src/gemini.ts:16-45 | a reply that is already a well-formed question comes back unchanged |
| Gemini.SanitizeIdempotent | server/src/gemini.ts:16-45 | sanitising the sanitised reply changes nothing |
| Gemini.DefaultWellFormed | server/src/gemini.ts:24-44 | the default question is itself a well-formed question |
| Gemini.DefaultFromQuestion | server/src/gemini.ts:22-44 | a reply equal to the default question contains a `?` yet yields the default, so the default does not imply a reply without `?` |
| Gemini.VendorRole | server/src/gemini.ts:62 | `model` exactly for `assistant`; every other role becomes `user` |
| Gemini.ToChatHistory | server/src/gemini.ts:61-64 | same length and order, each turn's role mapped and its text as the single part |
| Gemini.ToChatHistoryAppend | server/src/gemini.ts:61-64 | the mapping of a concatenation is the concatenation of the mappings |
| Gemini.ChatWithGemini | server/src/gemini.ts:51-111 | at most `retries` attempts, each earlier one an overload, with a wait of 2^(k-1)·1000 ms after overload k and none after the last. A reply returns its sanitised text. An overload ends only on the final attempt, with the fixed overload message. Any other error is rethrown with its message, or the generic one. With no attempt allowed the method throws the exhausted message |
| Gemini.ChatWithGeminiDefault | server/src/gemini.ts:47-111 | with the default of three retries: one to three attempts, each earlier one an overload, the waits doubling from one second; an overload on the last ends on the third attempt with the overload message; a reply returns its sanitised text; any other error is rethrown with its message, or the generic one when empty |
| Gemini.OverloadIff | server/src/gemini.ts:85 | an error is an overload exactly when `503` or `overloaded` starts at some position of its message |
| Gemini.BackoffTotal | server/src/gemini.ts:88-92 | each wait is twice the previous, and n waits total (2^n - 1) seconds |
| JsStrings.IndexOf | server/src/gemini.ts:22 | the first position of the character, or -1 exactly when it is absent |
| JsStrings.LastIndexOf | server/src/gemini.ts:29 | the last position of the character, or -1 exactly when it is absent |
| JsStrings.Trim | server/src/misconceptions.ts:240 | the result has no whitespace at either end and is no longer than the input |
| JsStrings.TrimDropsOnlyWhitespace | server/src/misconceptions.ts:240 | the result is the run of the input that starts after the leading whitespace, and every character before and after that run is whitespace |
| JsStrings.TrimKeepsWords | server/src/misconceptions.ts:240 | `trim` keeps every word of `split(/\s+/).filter(Boolean)`, in order |
| JsStrings.TrimStartKeepsWords | server/src/misconceptions.ts:240 | dropping leading whitespace keeps every word, in order |
| JsStrings.SplitTrailingWhitespace | server/src/misconceptions.ts:261 | after text, trailing whitespace adds exactly one empty piece to `split(/\s+/)` |
| JsStrings.CollapseSpacing | server/src/misconceptions.ts:239 | after `replace(/\s+/g, ' ')` every whitespace character is a plain space and no two are adjacent |
| JsStrings.CollapseWhitespaceFixes | server/src/misconceptions.ts:239 | text already in that shape is left unchanged |
| JsStrings.CollapseKeepsPieces | server/src/misconceptions.ts:239 | `replace(/\s+/g, ' ')` leaves `split(/\s+/)` unchanged: the same pieces, in order |
| JsStrings.CollapseTrimKeepsWords | server/src/misconceptions.ts:239-240 | collapsing whitespace and trimming keep every word, in order |
| JsStrings.NonEmptyWordsAppend | server/src/gemini.ts:32 | `filter(Boolean)` on a concatenation is the concatenation of the filtered parts |
| JsStrings.NonEmptyWords | server/src/gemini.ts:32 | `filter(Boolean)` keeps only non-empty strings, is no longer, and leaves a list without empty strings unchanged |
| JsStrings.NonEmptyWordsFromList | server/src/gemini.ts:32 | every string `filter(Boolean)` keeps comes from the list |
| JsStrings.SplitWhitespace | server/src/misconceptions.ts:261 | `split(/\s+/)` never yields an empty list, and no piece holds whitespace |
| JsStrings.SplitWhitespaceJoin | server/src/misconceptions.ts:261 | the pieces of `split(/\s+/)` joined by single spaces are the input with each whitespace run turned into one space; with the row above this fixes every piece |
| JsStrings.Split | server/src/gemini.ts:32 | `split(' ')` never yields an empty list, and no piece holds the separator |
| JsStrings.JoinSplit | server/src/gemini.ts:32-34 | joining the pieces of a split with the separator restores the string |
| JsStrings.SplitJoin | server/src/gemini.ts:32-34 | splitting a join of separator-free pieces gives the pieces back |
| JsStrings.WordCountBound | server/src/gemini.ts:32 | n non-empty words need at least 2n - 1 characters |
| JsStrings.LowerIdempotent | server/src/misconceptions.ts:191 | lower-casing twice equals lower-casing once |
| JsStrings.Lower | server/src/misconceptions.ts:191 | same length; each character is lower-cased on its own, ASCII letters only |
| JsStrings.LowerAppend | server/src/misconceptions.ts:191 | lower-casing a concatenation is the concatenation of the lower-cased parts |
| JsStrings.ContainsIff | server/src/misconceptions.ts:218-226 | `includes(p)` holds exactly when `p` starts at some position of the string |

## Left out

- The vendor client and its chat session are not part of this model: client setup,
  `startChat`, `sendMessage`, the generation config and `generateSessionSummary`. The
  vendor call is the oracle `send`.
- The prompt text built from the learner's message and editor context, and the system
  prompt, are not modelled. They are only passed to the vendor.
- `delay` is not modelled: the method returns the wait durations instead of sleeping.
- The metrics counters and console logging are left out. They do not affect results.
- `randomSessionId` is left out because it uses randomness.
- The taxonomy's labels, descriptions and examples are reference text. Only the order of
  the tag ids is modelled.
- HTTP routes, authentication, scripts and the editor extension UI are outside the engine.
- The `default` branch of `fallbackQuestion` is unreachable, because the tag type is
  closed.
- FallbackQuestion: states only that each fallback ends in `?` and fits 160 characters.
  That each holds a single `?` is not proved: the solver cannot look far enough into the
  long literal strings. The side-effects question contains the word "code", which
  `hardValidateQuestion` would reject. The source never validates fallbacks, and this is
  not proved here.
- Confidences are reals, not IEEE doubles, so sums such as 0.32 + 0.22 are exact here.
  Results at the 0.18, 0.55 and 0.75 thresholds can differ from the JavaScript.
- Letter case: `toLowerCase` is ASCII-only here. Letters outside ASCII keep their case.
- String lengths count characters, not UTF-16 code units. This matters only for the
  160-character limit on text outside the Basic Multilingual Plane.
- Regular expressions are modelled as substring and character-class predicates:
  - `\bcode\b` and `\bclass\b` use ASCII word characters;
  - `<[^>]+>` and `step\s+\d` are written out directly.
- AdjustedConfidence: its contract states only the [0, 1] bound. The exact nudges are
  stated separately, in `ConfidenceNudges`, for priors in [0.08, 0.96].
- ChatWithGemini: `retries` is an integer. A fractional `retries` would never equal the
  attempt number, so the source's final overload would fall through to the "Failed after
  multiple retries" error. This is not modelled.
- ChatWithGemini: an error without a message is modelled as an empty message. Both give
  the generic failure text, and neither counts as an overload.
- A reply that is not a string, and an exception thrown by the oracle's own text
  accessor, are not modelled.
- SanitizeToSingleQuestion: its `?` test is on the cleaned reply: markup removed, whitespace
  collapsed and trimmed. This is the text the source searches.
