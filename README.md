# Flashmind study aid: verified model of the study session and the generation endpoint

Flashmind is a browser study aid. The user pastes text. A server endpoint sends the text to a
language-model completion service and turns the free-text reply into question/answer
flashcards. The page then lets the user step through the cards, reveal answers, mark each
answer correct or incorrect, and save or load named decks.

This project models the two parts of the app that contain logic:

- `route.dfy` (module `GenerateRoute`): the POST handler of the generation endpoint, as a pure
  function of three inputs: the request body, what the completion call produced, and the JSON
  parser. It covers the text guard (400), the missing-content failure (500), the bracket
  extraction `content.match(/\[[\s\S]*\]/)`, and parse-or-fallback. The extraction is proved
  equal to the leftmost-longest match of the pattern. That match is spelled out independently
  (`LeftmostLongest`). The extraction is also proved idempotent.
- `session.dfy` (module `Session`): the study page's card state as a value (`ViewState`) with
  one function per transition. It also covers runs of user actions: the card index stays in
  range, and the counters equal the number of answers marked since the last deck load. It
  defines the accuracy percentage (round half up).
- `home.dfy` (module `Home`): the page component as a class `StudyBuddy`, whose fields are its
  state hooks and whose methods are its event handlers. The card handlers are proved against
  `Session` functions: `NextCard`, `PrevCard`, `MarkAnswer` and `LoadDeck` against the functions
  of those names, `GenerateFlashcards` against `ShowGenerated`, and `ToggleAnswer` and
  `ToggleStudyMode` against `FlipAnswer` and `FlipStudyMode`. `SetText`, `SetDeckName` and
  `SaveFlashcardDeck` have no `Session` counterpart: their contracts state the new text,
  deck name and sent document directly. Every method keeps the invariant `Valid()`: the index
  is in range, and the counters are the tally of a ghost history of marks.
- `text.dfy` (module `JsText`): JavaScript's `String.prototype.trim`, which the page uses for
  its blank-input guards.
- `types.dfy` (module `Types`): the records `Flashcard` and `FlashcardDeck`, and `Option`.

Inputs that come from outside the code become parameters:

- the completion call's outcome is a `Completion` value (call threw / no content / content);
- `JSON.parse` is a parameter `parse: string -> Option<J>`, where `None` means it threw;
- the generation reply reaching the page is an `Option<seq<Flashcard>>`, standing for the
  reply's `flashcards` field;
- whether the database accepted a saved deck is a `bool`.

The completion's system prompt asks for 5 to 10 cards (src/app/api/generate-flashcards/route.ts:27).
The handler itself returns whatever `JSON.parse` yields, of any shape or length
(src/app/api/generate-flashcards/route.ts:52, 63). The model follows the code (`GenerateRoute.Post`).

The accuracy percentage is modelled as the nearest integer to 100 * correct / (correct +
incorrect), with halves rounded up. That is what `Math.round` does to the exact quotient.

## Model

| member | source | states |
|---|---|---|
| `JsText.TrimStartIsSuffix` | src/app/components/home.tsx:47 | Dropping leading whitespace keeps a suffix of the input. Everything dropped is whitespace, and the suffix does not start with whitespace. |
| `JsText.TrimEndIsPrefix` | src/app/components/home.tsx:47 | Dropping trailing whitespace keeps a prefix of the input. Everything dropped is whitespace, and the prefix does not end with whitespace. |
| `JsText.TrimSpec` | src/app/components/home.tsx:47 | `trim()` returns a contiguous piece of the input with only whitespace before and after it, and that piece neither starts nor ends with whitespace. So it is exactly the input with whitespace removed from both ends. It is empty exactly when every character is an ECMAScript whitespace or line terminator. |
| `JsText.BlankIsAllWhitespace` | src/app/components/home.tsx:74 | The guards' `!s.trim()` holds exactly when the input is nothing but whitespace. |
| `GenerateRoute.FirstIndex` | src/app/api/generate-flashcards/route.ts:50 | The result is the leftmost position holding the character, or none when it does not occur. |
| `GenerateRoute.LastIndex` | src/app/api/generate-flashcards/route.ts:50 | The result is the rightmost position holding the character, or none when it does not occur. |
| `GenerateRoute.Extract` | src/app/api/generate-flashcards/route.ts:50-51 | With no `]` after a `[`, the whole content goes to the parser. Otherwise the text parsed is a contiguous piece of the content that starts with `[` and ends with `]`. |
| `GenerateRoute.ExtractFirstToLast` | src/app/api/generate-flashcards/route.ts:50-51 | When a `[` comes before a `]`, the extracted text runs from the first `[` through the last `]`, both included. |
| `GenerateRoute.ExtractIsRegexMatch` | src/app/api/generate-flashcards/route.ts:50-51 | The pattern `\[[\s\S]*\]` matches exactly when some `[` is followed by a `]`. The extracted text equals the leftmost-longest match. With no match it is the whole content. |
| `GenerateRoute.LeftmostLongestIsFirstToLast` | src/app/api/generate-flashcards/route.ts:50 | The match a backtracking engine reports for the greedy pattern is the extracted text. |
| `GenerateRoute.ExtractIdempotent` | src/app/api/generate-flashcards/route.ts:50-51 | Extracting from an extracted string returns it unchanged. |
| `GenerateRoute.Post` | src/app/api/generate-flashcards/route.ts:9-71 | Status is always 200, 400 or 500. Status is 400 with error `Text is required` exactly when `text` is missing, null or empty. That response is the same whatever the completion and parser are, so no completion result is used. Whitespace-only text gets past this guard. Status is 500 with `Failed to generate flashcards` exactly when the body is unreadable, or the text passes the guard and the completion threw or gave no or empty content. On 200: the parsed value, unchanged and unchecked, when parsing succeeds; otherwise one card with question `Generated from AI` and the full content as answer. |
| `GenerateRoute.FallbackKeepsFullContent` | src/app/api/generate-flashcards/route.ts:53-60 | When the reply is text followed by a bracketed part that fails to parse, the fallback answer is the whole reply. The extracted text is only the bracketed part. |
| `Session.NextCard` | src/app/components/home.tsx:117-122 | Before the last card: the index advances by one and the answer is hidden. Otherwise nothing changes. Cards, stats and mode never change. The in-range invariant is kept. |
| `Session.PrevCard` | src/app/components/home.tsx:124-129 | After the first card: the index moves back by one and the answer is hidden. Otherwise nothing changes. Cards, stats and mode never change. The in-range invariant is kept. |
| `Session.Record` | src/app/components/home.tsx:132-135 | Exactly one counter grows by one: `correct` for a correct answer, `incorrect` otherwise. |
| `Session.MarkAnswer` | src/app/components/home.tsx:131-137 | The number answered grows by exactly one, and then the `nextCard` rule applies. The in-range invariant is kept. |
| `Session.LoadDeck` | src/app/components/home.tsx:100-106 | The deck's cards are shown from index 0, question side, in study mode. Both counters are 0. |
| `Session.ShowGenerated` | src/app/components/home.tsx:60-65 | Same as loading a deck, except that the counters are kept. |
| `Session.FlipAnswer` | src/app/components/home.tsx:267 | Only the answer flag changes, and it is negated. |
| `Session.FlipStudyMode` | src/app/components/home.tsx:193 | Only the study-mode flag changes, and it is negated. |
| `Session.Tally` | src/app/components/home.tsx:131-136 | The counters built up by a history of marks add up to its length. |
| `Session.TallyAppend` | src/app/components/home.tsx:132-135 | Marking one more answer records it on top of the counters already there. |
| `Session.RunKeepsBounds` | src/app/components/home.tsx:62 | From an in-range state, any sequence of next, previous, mark, toggles, loads and generates keeps the index in range: `0 <= currentCard`, below the number of cards, and 0 when there are none. |
| `Session.RunCountsMarks` | src/app/components/home.tsx:131-136 | With no deck load, each counter grows by exactly the number of marks of its kind. `correct + incorrect` grows by the number of `markAnswer` calls; generates do not reset it. |
| `Session.LoadThenCount` | src/app/components/home.tsx:105 | After a deck load, the counters are exactly the correct and incorrect marks made since. |
| `Session.Accuracy` | src/app/components/home.tsx:364-367 | 0 with nothing marked. Otherwise the integer nearest to 100 * correct / (correct + incorrect), halves up. Always within [0, 100]; 0 when nothing is correct; 100 when nothing is incorrect. |
| `Home.StudyBuddy.constructor` | src/app/components/home.tsx:20-28 | The page starts with empty text, no cards, index 0, answer hidden, study mode off, empty deck name and zeroed counters. |
| `Home.StudyBuddy.SetText` | src/app/components/home.tsx:167 | Typing replaces the text and nothing else. |
| `Home.StudyBuddy.SetDeckName` | src/app/components/home.tsx:214 | Typing replaces the deck name and nothing else. |
| `Home.StudyBuddy.NextCard` | src/app/components/home.tsx:117-122 | The new card state is `Session.NextCard` of the old one. Text, deck name and the mark history are unchanged. The invariant is kept. |
| `Home.StudyBuddy.PrevCard` | src/app/components/home.tsx:124-129 | The new card state is `Session.PrevCard` of the old one. Everything else is unchanged. The invariant is kept. |
| `Home.StudyBuddy.RecordAnswer` | src/app/components/home.tsx:132-135 | The counter update alone: the card state's counters become `Session.Record` of the old ones, nothing else in the card state changes, and the answer joins the mark history. |
| `Home.StudyBuddy.MarkAnswer` | src/app/components/home.tsx:131-137 | The new card state is `Session.MarkAnswer` of the old one, and the mark history grows by this answer. So the counters remain the tally of all marks since the last load. |
| `Home.StudyBuddy.LoadDeck` | src/app/components/home.tsx:100-106 | The new card state is `Session.LoadDeck`, and the mark history is emptied. Text and deck name are unchanged. |
| `Home.StudyBuddy.GenerateFlashcards` | src/app/components/home.tsx:46-71 | Blank text after trimming: nothing is posted and nothing changes. Non-blank text: the raw text is posted. The card state becomes `Session.ShowGenerated` of the reply's cards when the reply has a `flashcards` field, and is unchanged otherwise. Counters and history are kept. |
| `Home.StudyBuddy.SaveFlashcardDeck` | src/app/components/home.tsx:73-98 | A blank deck name or no cards: nothing is sent and nothing changes. Otherwise a deck with exactly the current name and cards is sent, and the name is cleared only if the database accepted it. The card state is unchanged. |
| `Home.StudyBuddy.ToggleAnswer` | src/app/components/home.tsx:267 | The new card state is `Session.FlipAnswer`; everything else is unchanged. |
| `Home.StudyBuddy.ToggleStudyMode` | src/app/components/home.tsx:193 | The new card state is `Session.FlipStudyMode`; everything else is unchanged. |

## Left out

- The document-database calls (list, create, delete documents), `ID.unique()`, the saved-deck list and its refresh, and deck deletion: the model leaves out the remote service those depend on. A save is modelled only as the document it would send.
- The completion request itself (model name, prompt text, temperature, token cap): a foreign API. Only its outcome is an input.
- `JSON.parse` internals: the parser is an arbitrary `string -> Option<J>`, with no JSON grammar.
- Non-string `text` values in the request body (numbers, booleans, objects): the text field is modelled as missing, null or a string.
- `Home.StudyBuddy.MarkAnswer`: the 500 ms delay before `nextCard`, and its stale capture of the index at click time, are left out as timing. The advance is applied at once. So the model does not cover a deck load that happens inside that window.
- `isGenerating`, the flag held only while the endpoint call is in flight: the model is synchronous, so the flag is always false between handlers.
- Races between overlapping remote calls, and the fire-and-forget refresh after save and delete: concurrency.
- `Home.StudyBuddy.GenerateFlashcards`: a reply whose `flashcards` field is truthy but is not an array of cards is not modelled; the reply is an optional card sequence.
- `Session.Accuracy`: uses exact rational rounding rather than IEEE double arithmetic. The two can differ only where a floating-point quotient lands just beside a half.
- UI visibility rules (the answer-mark buttons only appear once the answer is shown; the card pane only appears in study mode with cards; Previous and Next are disabled at the ends): rendering. The handlers are modelled without these preconditions, and each keeps the invariant anyway.
- `alert`, `console` logging, CSS, the JSX layout, and `new Date()` timestamps (left out of the sent deck).
- Strings are sequences of Unicode scalar values, not UTF-16 code units.
- The root `types/index.ts`, a duplicate record file with `id` in place of `$id`: no behaviour.
