# Fantasy decision game: progression engine and dataset wizard helpers

A Dafny model of two small pieces of the fantasy decision game.

**The story engine.** The state names the current question or, once finished, the final epilogue of a story graph. `handleAnswer` (src/App.tsx) moves the game state along one answer. It asks the epilogue map first, then the question map, and a dangling reference changes nothing. `useGameState` (src/hooks/useGameState.ts) owns the state:
- the initial state;
- the shallow `{...prev, ...patch}` update;
- the reset;
- write-through persistence of the whole state, as JSON, under the session-store key `chatgame_state`;
- loading that value on startup.

App then shows at most one of three panels: the question card, the end screen, or the error notice.

**The dataset prompt wizard** (scripts/dataset-prompt-wizard.mjs). These are its string helpers:
- `normalizeMode`;
- `slugifyAscii`;
- `validateDatasetId` and `validateAnswerTypeId`;
- the suggested answer-type id;
- the loop of `askProvidedAnswerTypes`, which collects answer types with unique, valid ids.

Files:
- `wrappers.dfy`: `Option` and `Result`.
- `game_types.dfy`: the records of src/types/game.ts.
- `json_codec.dfy`: JSON.stringify of a game state and JSON.parse of that text. The round trip is proved.
- `game_state_hook.dfy`: useGameState. Its `Session` class holds the state and the session store, a `map<string, string>`.
- `app.dfy`: `handleAnswer`, runs of answers, and panel selection.
- `js_string.dfy`: `String.prototype.trim` and `toLowerCase`.
- `dataset_wizard.dfy`: the wizard helpers and the collection loop.

Where the code and the intended design differ, the model follows the code:
- **A corrupt stored value is not caught.** `JSON.parse` throws, and nothing falls back to a fresh game. `Load` and `Session.Mount` return `Failure(SyntaxError)` for such a value.
- **Finished is not terminal.** `handleAnswer` has no `isFinished` check; only the UI hides the question card. An answer after the end still moves `currentQuestionId` and grows the history, and the state stays finished (`App.AnswerAfterFinish`). What does hold is that `isFinished` never goes back to false (`App.FinishedIsSticky`).
- **An empty stored string is falsy.** It loads as the initial state, like a missing key.
- **An empty current or epilogue id is falsy.** App looks nothing up for it. So an epilogue stored under the id `""` finishes the story but leaves the screen with no panel (`App.EmptyEpilogueIdBlank`).

`trim` strips every ECMAScript WhiteSpace and LineTerminator code point, not only ASCII blanks, because that is what `String.prototype.trim` does.

## Model

| member | source | states |
|---|---|---|
| JsonCodec.Encode | src/hooks/useGameState.ts:20 | JSON.stringify(state): the four fields in the initial state's key order, with no whitespace, strings quoted with JSON's escapes, and null for an absent id |
| JsonCodec.Decode | src/hooks/useGameState.ts:16 | JSON.parse(saved) for texts in the encoder's key order and spacing, with any JSON string escape except surrogates; nothing for any other text (JSON.parse throws on some of these and parses the rest; see "## Left out") |
| JsonCodec.DecodeEncode | src/hooks/useGameState.ts:16-20 | JSON.parse of JSON.stringify(state) gives back exactly that state, for every state |
| JsonCodec.EncodeNonEmpty | src/hooks/useGameState.ts:16-20 | a stored encoding is never the empty (falsy) text; it starts with `{` |
| GameStateHook.Merge | src/hooks/useGameState.ts:23-25 | each field present in the partial is overwritten with its value, and every absent field keeps its previous value |
| GameStateHook.MergeNoFields | src/hooks/useGameState.ts:23-25 | an empty partial leaves the state unchanged |
| GameStateHook.MergeIdempotent | src/hooks/useGameState.ts:23-25 | applying the same partial twice equals applying it once |
| GameStateHook.MergeCompose | src/hooks/useGameState.ts:23-25 | two successive updates equal one update in which the later partial's fields win |
| GameStateHook.MergeFull | src/hooks/useGameState.ts:23-25 | a partial that sets every field yields exactly those values, whatever the previous state |
| GameStateHook.Load | src/hooks/useGameState.ts:14-17 | a missing or empty stored value gives the initial state `{"start", [], false, null}`; otherwise the result is the decoded value, and it is an error exactly when the text does not decode |
| GameStateHook.LoadAfterSave | src/hooks/useGameState.ts:14-21 | after the state is saved under the key, loading returns that state, whatever the store held before |
| GameStateHook.LoadIgnoresOtherKeys | src/hooks/useGameState.ts:15 | loading depends on the `chatgame_state` entry only |
| GameStateHook.ReloadPersisted | src/hooks/useGameState.ts:14-21 | a session whose store holds its state's encoding under the key (the invariant every Session method ensures) reloads to exactly that state |
| GameStateHook.Session.constructor | src/hooks/useGameState.ts:14-21 | the first render keeps the loaded state, and the effect then writes its encoding under the key |
| GameStateHook.Session.Mount | src/hooks/useGameState.ts:14-21 | mounting fails exactly when loading fails; otherwise the state is the loaded one and the store holds its encoding |
| GameStateHook.Session.Save | src/hooks/useGameState.ts:19-21 | the entry under `chatgame_state` becomes the encoding of the current state; any old value is overwritten, no other key changes, and the state is untouched |
| GameStateHook.Session.Update | src/hooks/useGameState.ts:23-25 | the new state is the merge of the old state and the partial, and it is persisted |
| GameStateHook.Session.Reset | src/hooks/useGameState.ts:27-29 | the new state is the initial state whatever came before, and it is persisted |
| GameStateHook.ResetTwice | src/hooks/useGameState.ts:27-29 | resetting twice leaves the same state and store as resetting once |
| App.Transition | src/App.tsx:10-29 | the state after one answer: the epilogue map is asked first and gives `{null, history + [answer.id], true, next}`; otherwise the question map gives `currentQuestionId := next` and `history + [answer.id]` with the other fields kept; otherwise the state is unchanged |
| App.HandleAnswer | src/App.tsx:10-29 | the new state follows `Transition`. An epilogue hit gives `{null, history + [answer.id], true, next}`. A question hit gives `{next, history + [answer.id]}` with `isFinished` and `finalEpilogueId` kept. A dangling id leaves state and store untouched. Otherwise the store holds the new state |
| App.InitialInProgress | src/hooks/useGameState.ts:6-11 | the initial state is under way (at a question, not finished, no epilogue) and not ended |
| App.TransitionShape | src/App.tsx:14-25 | an answer given while under way leaves the story under way or ended (no current question, finished, at an epilogue); it ends exactly when the answer's target is an epilogue id, and then at that epilogue |
| App.EpilogueWins | src/App.tsx:14-21 | an id present in both maps always finishes the story at that epilogue and never moves to the question |
| App.FinishedIsSticky | src/App.tsx:10-29 | no answer turns a finished state back into an unfinished one |
| App.AnswerAfterFinish | src/App.tsx:10-29 | after the end, an answer to a question id still sets `currentQuestionId` and appends to the history; the state stays finished with its epilogue |
| App.StartToEnding | src/App.tsx:10-29 | from the initial state, an answer to question "q2" and then one to epilogue "end_good" end at `{null, [a1, a2], true, "end_good"}` |
| App.Play | src/App.tsx:10-29 | the state after handling a sequence of answers one at a time, in order, each from the state the previous one left |
| App.PlayHistory | src/App.tsx:11-25 | after any run of answers the history is the old history followed by the ids of the answers acted on, in order; earlier entries never change |
| App.ActedOnAll | src/App.tsx:11-25 | when every answer resolves, the ids acted on are exactly the chosen ids in order |
| App.PlayResolvedHistory | src/App.tsx:11-25 | after N answers that all resolve, the history grew by N, its old prefix is unchanged, and the new entries are the chosen answer ids in order |
| App.Lookup | src/App.tsx:31-32 | `id ? map[id] : null`: a null or empty (falsy) id looks nothing up; any other id gives the map's entry when it has one and nothing otherwise |
| App.Panels | src/App.tsx:46-60 | at most one panel is shown. The question card shows iff not finished and the current id resolves, and it shows that question. The end screen shows iff finished and the epilogue id resolves, and it shows that epilogue. The error notice shows iff not finished and no question resolves. Nothing shows iff finished without a resolving epilogue |
| App.InitialShowsPanel | src/App.tsx:46-60 | the initial state shows exactly one panel |
| App.PlayShowsPanel | src/App.tsx:10-60 | when no epilogue has the empty id, every run of answers from a state that shows a panel ends in a state that shows exactly one panel |
| App.EmptyEpilogueIdBlank | src/App.tsx:14-58 | an answer to an epilogue stored under the empty id finishes the story, and the screen then shows no panel |
| JsString.Trim | scripts/dataset-prompt-wizard.mjs:16 | `String.prototype.trim`: leading and then trailing whitespace and line terminators removed |
| JsString.ToLower | scripts/dataset-prompt-wizard.mjs:16 | `toLowerCase` on ASCII: every `A-Z` becomes its `a-z` letter, every other character is kept, and the length is unchanged |
| JsString.TrimStart | scripts/dataset-prompt-wizard.mjs:16 | the result is a suffix of the input, the dropped prefix is all whitespace, and the result does not start with whitespace |
| JsString.TrimEnd | scripts/dataset-prompt-wizard.mjs:16 | the result is a prefix of the input, the dropped suffix is all whitespace, and the result does not end with whitespace |
| JsString.TrimPadded | scripts/dataset-prompt-wizard.mjs:16 | trim ignores any whitespace padding on either side |
| JsString.TrimCommutes | scripts/dataset-prompt-wizard.mjs:16 | stripping the start and the end can happen in either order |
| JsString.LowerTrim | scripts/dataset-prompt-wizard.mjs:16 | lower-casing and trimming commute |
| DatasetWizard.ModeOf | scripts/dataset-prompt-wizard.mjs:17-20 | the mode a trimmed, lower-cased answer selects: `provided`, `1` or `p`; `invented`, `2` or `i`; `derived`, `3` or `d`; anything else selects none |
| DatasetWizard.NormalizeMode | scripts/dataset-prompt-wizard.mjs:15-21 | normalizeMode: null or undefined reads as the empty answer, which is trimmed, lower-cased and mapped by `ModeOf` |
| DatasetWizard.NormalizeModeInsensitive | scripts/dataset-prompt-wizard.mjs:15-21 | surrounding whitespace and letter case do not change the mode chosen |
| DatasetWizard.NormalizeModeFixpoint | scripts/dataset-prompt-wizard.mjs:15-21 | each mode's name normalizes to that mode |
| DatasetWizard.NormalizeModeEmpty | scripts/dataset-prompt-wizard.mjs:15-21 | null and the empty answer select no mode |
| DatasetWizard.MenuNumberSelectsMode | scripts/dataset-prompt-wizard.mjs:80-90 | the number the menu prints before a mode selects that mode |
| DatasetWizard.ReplaceNonSlugRuns | scripts/dataset-prompt-wizard.mjs:31 | `.replace(/[^a-z0-9]+/g, '_')`: each maximal run of characters outside `[a-z0-9]` becomes one underscore, and letters and digits are copied |
| DatasetWizard.CollapseUnderscores | scripts/dataset-prompt-wizard.mjs:32 | `.replace(/_+/g, '_')`: each run of underscores becomes one underscore, and other characters are copied |
| DatasetWizard.StripEdgeUnderscores | scripts/dataset-prompt-wizard.mjs:33 | `.replace(/^_+\|_+$/g, '')`: the leading and the trailing underscores are removed |
| DatasetWizard.SlugifyAscii | scripts/dataset-prompt-wizard.mjs:27-34 | slugifyAscii: lower-case the text, then apply the three replacements in the source's order |
| DatasetWizard.DropNonSlug | scripts/dataset-prompt-wizard.mjs:31 | the rest of a run outside `[a-z0-9]` is a suffix of the text that is empty or starts with a letter or digit |
| DatasetWizard.DropNonSlugKeepsSlugChars | scripts/dataset-prompt-wizard.mjs:31 | skipping the rest of such a run removes no letter or digit |
| DatasetWizard.ReplaceNonSlugRunsShape | scripts/dataset-prompt-wizard.mjs:31 | after the first replacement only `[a-z0-9_]` remains, there is no `__`, and the letters and digits are kept in order |
| DatasetWizard.ReplaceNonSlugRunsSeparator | scripts/dataset-prompt-wizard.mjs:29-31 | a run of other characters between a part ending in a letter or digit and a part starting with one becomes exactly one underscore, and the two parts are replaced independently |
| DatasetWizard.CollapseWithoutDoubles | scripts/dataset-prompt-wizard.mjs:32 | collapsing underscore runs changes nothing in a text without `__` |
| DatasetWizard.SliceKeepsIdShape | scripts/dataset-prompt-wizard.mjs:31-33 | any slice of `[a-z0-9_]` text without `__` is again such a text |
| DatasetWizard.StripEdgeUnderscoresShape | scripts/dataset-prompt-wizard.mjs:33 | removing edge underscores from `[a-z0-9_]` text without `__` leaves a slug |
| DatasetWizard.DropUnderscoresKeepsSlugChars | scripts/dataset-prompt-wizard.mjs:33 | removing leading underscores removes no letter or digit |
| DatasetWizard.DropTrailingUnderscoresKeepsSlugChars | scripts/dataset-prompt-wizard.mjs:33 | removing trailing underscores removes no letter or digit |
| DatasetWizard.StripEdgeUnderscoresKeepsSlugChars | scripts/dataset-prompt-wizard.mjs:33 | removing edge underscores removes no letter or digit |
| DatasetWizard.SlugifyShape | scripts/dataset-prompt-wizard.mjs:27-34 | the slug holds only `a-z`, `0-9` and `_`, never `__`, never `_` at either end, and keeps every letter and digit of the lower-cased input in order |
| DatasetWizard.SlugFixpoint | scripts/dataset-prompt-wizard.mjs:27-34 | every slug is its own slugifyAscii |
| DatasetWizard.SlugifyIdempotent | scripts/dataset-prompt-wizard.mjs:27-34 | slugifying a slug changes nothing |
| DatasetWizard.SlugifyEmptyIff | scripts/dataset-prompt-wizard.mjs:27-34 | the slug is empty exactly when the lower-cased input has no ASCII letter or digit |
| DatasetWizard.SlugEmptyIff | scripts/dataset-prompt-wizard.mjs:27-34 | a slug that keeps the letters and digits of a text is empty exactly when that text has none |
| DatasetWizard.NoSlugChars | scripts/dataset-prompt-wizard.mjs:27-34 | a text keeps no letters or digits exactly when it has none |
| DatasetWizard.IdCharRun | scripts/dataset-prompt-wizard.mjs:38 | the greedy `[a-z0-9_]*` scan stops at the first character outside the class, and it never passes the end |
| DatasetWizard.ValidateDatasetId | scripts/dataset-prompt-wizard.mjs:36-39 | accepts exactly the ids of 3 to 64 characters that start with `a-z` and continue with `a-z0-9_` |
| DatasetWizard.ValidateAnswerTypeId | scripts/dataset-prompt-wizard.mjs:41-43 | accepts exactly `at_` followed by one or more characters of `a-z0-9_` |
| DatasetWizard.SuggestedId | scripts/dataset-prompt-wizard.mjs:116 | the suggested id: `at_` followed by the slug of the English name, or by `type` when that slug is empty (falsy) |
| DatasetWizard.IdFromLine | scripts/dataset-prompt-wizard.mjs:49-51 | the id a typed line stands for at line 120: the trimmed line, or the suggested id when the trimmed line is empty |
| DatasetWizard.PrefixedIdValid | scripts/dataset-prompt-wizard.mjs:41-43 | `at_` followed by a non-empty run of id characters is valid |
| DatasetWizard.DefaultTailValid | scripts/dataset-prompt-wizard.mjs:116 | the fallback id `at_type` passes validateAnswerTypeId |
| DatasetWizard.SuggestedIdValid | scripts/dataset-prompt-wizard.mjs:116-121 | the suggested default `at_` + (slug or `type`) always passes validateAnswerTypeId |
| DatasetWizard.FirstAcceptedId | scripts/dataset-prompt-wizard.mjs:119-139 | an accepted id is valid and not among the ids already taken |
| DatasetWizard.FirstAcceptedIdNone | scripts/dataset-prompt-wizard.mjs:119-128 | no id is accepted exactly when every line gives an invalid or already taken id |
| DatasetWizard.FirstAcceptedIdFromLine | scripts/dataset-prompt-wizard.mjs:119-139 | the accepted id is the one given by some typed line, and every line before that one gave an invalid or already taken id |
| DatasetWizard.AskAnswerTypeId | scripts/dataset-prompt-wizard.mjs:118-139 | the id prompt loop returns the first line whose id is valid and unused, and nothing when the lines run out |
| DatasetWizard.AcceptedByExtend | scripts/dataset-prompt-wizard.mjs:129-137 | appending the next entry with its names and the id picked for it extends the collection; earlier entries are unchanged |
| DatasetWizard.AcceptedByAt | scripts/dataset-prompt-wizard.mjs:110-139 | every collected entry k keeps the names of input k and has the id picked for it when the ids of entries 0..k-1 are taken |
| DatasetWizard.AcceptedIdsValidDistinct | scripts/dataset-prompt-wizard.mjs:107-142 | the ids the loop accepts are valid and pairwise distinct |
| DatasetWizard.AskProvidedAnswerTypes | scripts/dataset-prompt-wizard.mjs:104-143 | on success `answerTypeCount == \|answerTypes\| ==` the requested count; every entry keeps its names and takes the first acceptable id; all ids are valid and pairwise distinct. When the modelled input ends first, the result is an `InputEnded` error |

## Left out

- React's scheduling is not modelled. State changes take effect at once, and the persistence effect is a `Save` at the end of each update. Two answers given within one render would both read the same stale `state` in the source; the model does not capture that.
- Session.Reset: React skips the effect when the state is already the very same initial-state object. The model saves again in that case. The store then holds the same text either way.
- Storage exceptions (quota, disabled storage) are not modelled. The code does not catch them either.
- GameStateHook.Load and JsonCodec.Decode: JSON.parse accepts more texts than the encoder writes. It allows whitespace, other key orders and surrogate-pair escapes, and it also reads other JSON values (numbers, null, objects lacking fields) that would become a malformed state. The model decodes the encoder's key order and spacing, with any JSON string escape except surrogates, and treats every other non-empty text as an error.
- JavaScript strings are UTF-16 code units, while Dafny strings are Unicode scalar values. Lone surrogates cannot occur in the model.
- GameStateHook.Merge: a partial whose field is present but `undefined` would overwrite that field with `undefined`. The model's partials cannot express this, and handleAnswer never passes one.
- App.HandleAnswer, App.Lookup and App.Panels: an object lookup in the source (`EPILOGUES[id]`, `QUESTIONS[id]`) also finds inherited properties such as `toString` or `constructor`. The model uses plain map membership.
- The story data (src/data/adventure) is not part of this model. The epilogue and question maps are parameters.
- The `console.error` line for a dangling id is diagnostics only and is not modelled.
- JSX, styling and the components QuestionCard, EndScreen, Header, HomePage and DndRacePage are not modelled. Panels records only which panel shows and with what content.
- DatasetWizard.SlugifyAscii: `toLowerCase` is modelled for ASCII letters only. JavaScript also lowers non-ASCII capitals, and some of those become ASCII letters: KELVIN SIGN becomes `k`, and U+0130 becomes `i` plus a combining dot. So the model's slug of such a name can be shorter than the source's.
- DatasetWizard.NormalizeMode: the same ASCII-only lowering applies. For example, KELVIN SIGN is not read as `k`.
- String(value ?? '') in slugifyAscii for non-string values is not modelled. Every caller passes a string.
- askLine is modelled only for the id prompt (`IdFromLine`: its trimming and its default). For the two names, its prompt text, its trimming and its re-asking on an empty answer are not modelled; the names are taken as the final answers to their prompts.
- DatasetWizard.AskProvidedAnswerTypes reads its input as a list of entries. When the entries or an entry's id lines run out, it returns `InputEnded`; this stands for the input stream closing. In the source, the pending `rl.question` then fails, nothing is returned, and `main`'s `finally` closes readline. The `collected` payload of `InputEnded`, and what the model states about it, exist only in the model.
- askInt is not modelled; its `min: 2` is not required, because the loop is correct for any count. askMode's and askDatasetId's re-asking loops are not modelled either; their single-step rules are (`NormalizeMode`, `MenuNumber`, `ValidateDatasetId`).
- askInventedAnswerTypes, askDerivedAnswerTypes, printHeader, the main flow and the output file are not modelled. They are prompts and I/O without further rules.
