# Interview question generator — a verified model of its text handling

The application takes a subject from the user and sends it to a large language
model with a prompt that asks for ten questions in the form `Q: …` / `A: …`. It
then turns the model's text into question cards.

This project models, in Dafny, every step of that path that is logic rather
than I/O:

- **`GenerateRoute`** (`src/app/api/generate/route.ts`) is the `POST` route. It
  rejects a blank subject and a missing API key, builds the prompt, and cuts the
  model's text before every `"Q: "` (`split(/(?=Q: )/)`). It then drops the
  blank pieces and trims the rest.
- **`QuestionPage`** (`src/app/page.tsx`) is the client page:
  - `data.questions.map(...)` splits each block on the first `"\nA: "` into a
    question and an answer;
  - `ContentRenderer` segments an answer with `split(/(```[\s\S]*?```)/)` and
    classifies each part as code or prose;
  - `InterviewPage` is a class holding the page's state (`subject`,
    `includeCode`, `questions`, `loading`, `error`), and `generateQuestions` is
    its method.
- **`CohereHandler`** (`src/app/api/generate/generateQuestions.ts`) is the
  older Cohere handler. It checks `!subject`, builds its prompt, and returns
  the non-blank lines of the text (`split('\n').filter(...)`).
- **`EndToEnd`** connects the route to the page. When the model answers with
  text, the page shows exactly one card per block the route returns.
- **`JsString`** holds the JavaScript built-ins these steps rely on, with their
  ECMAScript semantics: `trim` with the WhiteSpace and LineTerminator code
  points of sections 12.2 and 12.3 of ECMA-262, `split` with a literal
  separator, `join`, `replace` with a string pattern (first occurrence only,
  found by the leftmost-occurrence search `IndexOf`), `slice` with negative positions, `startsWith`, `endsWith`
  and `Array.prototype.filter`.
- **`Types`** holds the records of `src/app/type.ts`, and **`Wrappers`** holds
  `Option`.

The calls to the outside are parameters:

- the generative model is `generate: string -> ModelReply`;
- the Cohere endpoint is `cohere: string -> Option<string>`;
- the API key from the environment is `apiKey: Option<string>`;
- the body read by `request.json()` is a `RequestJson` value;
- what the page's `fetch` yields is a `FetchOutcome`.

Since a network call is a function of the prompt, "the model is never called"
becomes "the response is the same for every model".

The model follows the code where its behaviour is easy to misread:

- A code part keeps a language tag written after the opening fence. The code
  is `part.slice(3, -3).trim()`, so ```` ```js\nx\n``` ```` gives the code
  `js\nx`, not `x`.
- A prose part is shown unchanged, not trimmed.
- A question may be empty: `"Q: \nA: x"` gives the question `""`.
- `replace('Q: ', '')` removes the first `"Q: "` wherever it is in the
  question part, not only at its start.
- The page shows a last part made of three to five backticks as an empty code
  box. It starts and ends with ```` ``` ```` but is not a complete fence pair.
- The Cohere handler rejects only a missing or empty subject, so a subject of
  spaces is sent on to the model.

## Model

| member | source | states |
|---|---|---|
| `JsString.Trim` | src/app/api/generate/route.ts:46-47 | `trim()` gives a string with no whitespace at either end. It is the slice of the input after its leading whitespace, only whitespace follows it, and it is empty exactly when the input is blank. |
| `JsString.TrimOccurrence` | src/app/api/generate/route.ts:47 | An occurrence of a pattern in the trimmed text is an occurrence in the original text, shifted by the leading whitespace. |
| `JsString.TrimKeepsPrefix` | src/app/api/generate/route.ts:47 | Trimming keeps a prefix whose first and last characters are not whitespace. |
| `JsString.IndexOf` | src/app/page.tsx:85 | The search inside `replace('Q: ', '')` gives the leftmost occurrence of the pattern, or reports that there is none. |
| `JsString.ReplaceFirst` | src/app/page.tsx:85 | `replace` with a string pattern changes only the leftmost occurrence, wherever it is. It leaves a text without the pattern unchanged. |
| `JsString.Split` | src/app/page.tsx:83 | `split` with a literal separator gives at least one piece. The pieces join back to the text with the separator, no piece holds the separator, and the first piece is a prefix of the text. |
| `JsString.SplitWithoutSeparator` | src/app/page.tsx:83 | A text without the separator splits into the one piece that is the text itself. |
| `JsString.SplitAtFirst` | src/app/page.tsx:83 | Only the leftmost separator makes the first cut. The first piece is the text before it, and the other pieces are the split of the text after it. |
| `JsString.SplitOnCharCount` | src/app/api/generate/generateQuestions.ts:32 | Splitting on one character gives exactly one piece more than there are occurrences of that character. |
| `JsString.SplitOnCharUnique` | src/app/api/generate/generateQuestions.ts:32 | Any list of pieces that are free of the character and join back to the text with it is the split of the text. |
| `JsString.Join` | src/app/page.tsx:86 | `join` of no elements is `""`. The result starts with the first element, and with two or more elements the separator follows it. |
| `JsString.StartsWith` | src/app/page.tsx:15 | `startsWith` holds exactly when the pattern fits in the text and matches its first characters. |
| `JsString.EndsWith` | src/app/page.tsx:15 | `endsWith` holds exactly when the pattern fits in the text and matches its last characters. |
| `JsString.Slice` | src/app/page.tsx:16 | `slice(3, -3)` counts a negative end back from the length, and gives the empty string when the start is not before the end. |
| `JsString.Filter` | src/app/api/generate/route.ts:46 | `filter` keeps exactly the elements that pass, and nothing else. |
| `JsString.FilterAppend` | src/app/api/generate/route.ts:46 | `filter` keeps the order: it distributes over concatenation. |
| `GenerateRoute.HasSubjectIsTrimmedTruthy` | src/app/api/generate/route.ts:10 | `subject?.trim()` is truthy exactly when the subject is present and not blank. |
| `GenerateRoute.KeyConfigured` | src/app/api/generate/route.ts:18-19 | `!apiKey` fails exactly when the key is absent or the empty string. |
| `GenerateRoute.Prompt` | src/app/api/generate/route.ts:25-37 | The prompt asks for 10 technical interview questions and holds the subject verbatim right after the fixed opening. The code-example sentence appears at its place exactly when `includeCode` is set. |
| `GenerateRoute.PromptStatesFormat` | src/app/api/generate/route.ts:29 | The prompt holds the format markers `Q: [question]` and `A: [answer]`. |
| `GenerateRoute.PromptCodeSentence` | src/app/api/generate/route.ts:26 | The prompt with code examples is the prompt without them, with the code sentence inserted where the empty string stood. |
| `GenerateRoute.SplitBeforeMarker` | src/app/api/generate/route.ts:45 | The lookahead split cuts before every `"Q: "` past index 0. The pieces concatenate back to the text, and every piece after the first starts with `"Q: "`. No piece holds `"Q: "` except at its own index 0, and the first piece runs up to the first such marker. |
| `GenerateRoute.CutBeforeMarker` | src/app/api/generate/route.ts:45 | A marker right after the first character starts a new piece, and the split property is kept. |
| `GenerateRoute.ExtendFirstPiece` | src/app/api/generate/route.ts:45 | Without a marker right after the first character, that character joins the first piece, and the split property is kept. |
| `GenerateRoute.MarkerDoesNotOverlap` | src/app/api/generate/route.ts:45 | Two occurrences of `"Q: "` are at least three characters apart. |
| `GenerateRoute.BlocksOf` | src/app/api/generate/route.ts:46-47 | After filtering and trimming, every block is non-empty and trimmed, and there are no more blocks than pieces. |
| `GenerateRoute.BlocksOfAppend` | src/app/api/generate/route.ts:46-47 | The blocks keep the order of the pieces they come from. |
| `GenerateRoute.BlocksOfPiece` | src/app/api/generate/route.ts:46-47 | A blank piece gives no block, and any other piece gives its trimmed text. |
| `GenerateRoute.BlockFromPiece` | src/app/api/generate/route.ts:46-47 | Every block is the trimmed text of a non-blank piece. |
| `GenerateRoute.BlocksHoldMarkerOnlyAtStart` | src/app/api/generate/route.ts:46-47 | Pieces that hold `"Q: "` at most at their index 0 give blocks that hold it at most at index 0. |
| `GenerateRoute.SplitBlocks` | src/app/api/generate/route.ts:44-47 | Every block the route returns is non-empty and trimmed, and holds `"Q: "` at most at index 0. |
| `GenerateRoute.MarkedPieceGivesQuestionBlock` | src/app/api/generate/route.ts:45-47 | A piece that starts with `"Q: "` gives a block that starts with `"Q:"`. |
| `GenerateRoute.MarkedPiecesGiveQuestionBlocks` | src/app/api/generate/route.ts:45-47 | Pieces that all start with `"Q: "` give blocks that all start with `"Q:"`. |
| `GenerateRoute.BlocksStartWithQuestion` | src/app/api/generate/route.ts:45-47 | Every block starts with `"Q:"`, except a first block made from the text before the first marker. |
| `GenerateRoute.PieceCount` | src/app/api/generate/route.ts:45 | There is one piece more than there are markers past index 0. |
| `GenerateRoute.BlockCount` | src/app/api/generate/route.ts:45-46 | There are at most as many blocks as occurrences of `"Q: "`, plus one. |
| `GenerateRoute.Post` | src/app/api/generate/route.ts:6-58 | A blank or missing subject gives 400 `Subject is required`, whatever the key and the model. A missing key then gives 500 `API key is not configured`, whatever the model. A model reply gives 200 with the blocks of its text. An error the model throws gives 500 with its message, or `Failed to generate questions` for a non-`Error`. Every non-200 response has an error and no questions. |
| `QuestionPage.QuestionPart` | src/app/page.tsx:83 | The question part is a prefix of the block without `"\nA: "`. When it is shorter than the block, a `"\nA: "` follows it. |
| `QuestionPage.RawAnswer` | src/app/page.tsx:83-86 | Without a separator the answer is `""`. Otherwise question part + `"\nA: "` + the rejoined answer parts rebuilds the block. |
| `QuestionPage.ParseBlock` | src/app/page.tsx:82-88 | Both fields of a card are trimmed. |
| `QuestionPage.SplitAtFirstSeparator` | src/app/page.tsx:83-86 | With a `"\nA: "` present, the question part is the text before the first one and the raw answer is everything after it, later separators included. Question part + separator + raw answer rebuilds the block. |
| `QuestionPage.NoSeparatorNoAnswer` | src/app/page.tsx:83-86 | Without a `"\nA: "`, the whole block is the question part and the answer is `""`. |
| `QuestionPage.ParseBlockFields` | src/app/page.tsx:83-86 | The question is the text before the first separator, with its first `"Q: "` removed, then trimmed. The answer is the text after that separator, trimmed. |
| `QuestionPage.EmptyQuestionAccepted` | src/app/page.tsx:85 | The block `"Q: \nA: x"` gives a card whose question is empty. |
| `QuestionPage.ProcessQuestions` | src/app/page.tsx:82-88 | There is one card per block, in the same order, and each card is the parse of its block. |
| `QuestionPage.FenceMatchEnd` | src/app/page.tsx:11 | The lazy fence match starting at a position ends at the first fence that begins at least three characters later. No fence lies in between, and there is no match when no such fence exists. |
| `QuestionPage.FencedBlockIsShortest` | src/app/page.tsx:11 | No proper prefix of a fenced block is itself a fenced block, so the lazy match takes the shortest one. |
| `QuestionPage.FirstFenceMatch` | src/app/page.tsx:11 | The regex search finds the leftmost position where the fence pattern matches. |
| `QuestionPage.NoMatchNoPair` | src/app/page.tsx:11 | A text where the pattern never matches holds no complete fence pair. |
| `QuestionPage.NoPairBeforeFirstMatch` | src/app/page.tsx:11 | The text before the first match, up to its opening fence, holds no fence pair. |
| `QuestionPage.SplitFences` | src/app/page.tsx:11 | The capturing split is lossless: the parts concatenate back to the answer. Parts alternate between outside text without a fence pair and fenced blocks whose inside holds no fence. No fence starts inside outside text that a block follows, so each block opens at the leftmost match. The result is the answer alone exactly when it has no fence pair. |
| `QuestionPage.FirstMatch` | src/app/page.tsx:11 | The first match is a fenced block. The text before it holds no fence pair, and no fence starts in it. |
| `QuestionPage.NoFenceBeforeFirstMatch` | src/app/page.tsx:11 | No fence starts before the first match: with the match's closing fence after it, that fence would open a match itself. |
| `QuestionPage.SegmentationIsUnique` | src/app/page.tsx:11 | Any parts that concatenate back to the answer and have the segmentation property are exactly the split, so the property determines the regex split. |
| `QuestionPage.SplitFencesAtBlock` | src/app/page.tsx:11 | Outside text in which no fence starts, then a fenced block: the split takes both as its first two parts and goes on with the split of the rest. |
| `QuestionPage.BlockIsFirstMatch` | src/app/page.tsx:11 | A fenced block after outside text in which no fence starts is the first match, and the match ends where the block ends. |
| `QuestionPage.MatchEndAt` | src/app/page.tsx:11 | The lazy match at a fence ends at the first fence that starts at least three characters later. |
| `QuestionPage.FourBacktickExample` | src/app/page.tsx:11 | The answer ````` ````x``` ````` (four backticks, `x`, three backticks) splits into `["", "````x```", ""]`: the match opens at the first backtick. |
| `QuestionPage.PrependMatch` | src/app/page.tsx:11 | Putting outside text and a fenced block in front of a segmentation keeps it a segmentation. |
| `QuestionPage.RenderPart` | src/app/page.tsx:14-32 | A part is code exactly when it starts and ends with three backticks. Its code is the text between them, trimmed, or empty when the part is shorter than six. Any other part is prose, unchanged. |
| `QuestionPage.Render` | src/app/page.tsx:11-33 | There is one segment per part, in order, and at least one segment. |
| `QuestionPage.FencedBlocksAreCode` | src/app/page.tsx:11-16 | Every fenced block is shown as code made of its inner text, trimmed, with any language tag kept. |
| `QuestionPage.LongFencedLookHasPair` | src/app/page.tsx:15 | A part of six or more characters that starts and ends with a fence holds a fence pair. |
| `QuestionPage.LeadingFenceStartsInPart` | src/app/page.tsx:11-15 | A part that starts with a fence has a fence starting inside it, so outside text that a block follows never looks fenced. |
| `QuestionPage.OutsideTextIsProse` | src/app/page.tsx:11-32 | Outside text before a fenced block is shown as prose, unchanged. A last outside part is prose, or an empty code box when it is three to five backticks. |
| `QuestionPage.NoFencePairIsOnePart` | src/app/page.tsx:11-32 | An answer without a fence pair is shown as the single segment of itself. |
| `QuestionPage.InterviewPage.constructor` | src/app/page.tsx:53-57 | The page starts with an empty subject, code examples off, no cards, not loading, and no error. |
| `QuestionPage.InterviewPage.SetSubject` | src/app/page.tsx:110 | The subject input sets the subject and nothing else, so the invariant that every card is trimmed holds after exactly when it held before. |
| `QuestionPage.InterviewPage.SetIncludeCode` | src/app/page.tsx:124 | The checkbox sets `includeCode` and nothing else, so the invariant that every card is trimmed holds after exactly when it held before. |
| `QuestionPage.InterviewPage.BeginRequest` | src/app/page.tsx:60-74 | A blank subject sets `Please enter a subject`, posts nothing and leaves loading as it was. Otherwise loading starts, the error clears, and the subject and flag are posted. The cards are untouched, so the invariant that every card is trimmed is kept. |
| `QuestionPage.InterviewPage.FinishRequest` | src/app/page.tsx:77-96 | Success replaces the cards with one per block. Failure keeps the old cards and sets `Failed to generate questions. Please try again.`. Loading ends either way, and every card stays trimmed. |
| `QuestionPage.InterviewPage.GenerateQuestions` | src/app/page.tsx:59-97 | A blank subject only sets the error: loading and cards are unchanged. Otherwise loading ends false. Success shows the new cards with no error, and failure keeps the old cards with the failure message. The subject and flag are unchanged. |
| `CohereHandler.HasSubject` | src/app/api/generate/generateQuestions.ts:7 | `!subject` rejects exactly a missing or empty subject. Any subject with a non-whitespace character passes. |
| `CohereHandler.Prompt` | src/app/api/generate/generateQuestions.ts:16 | The prompt asks for 10 interview questions and ends with the subject verbatim. |
| `CohereHandler.NonBlankLines` | src/app/api/generate/generateQuestions.ts:32 | No returned element holds a newline or is blank. |
| `CohereHandler.NonBlankLineCount` | src/app/api/generate/generateQuestions.ts:32 | There are at most as many elements as newlines, plus one. |
| `CohereHandler.NonBlankLinesOfJoin` | src/app/api/generate/generateQuestions.ts:32 | The elements are exactly the non-blank lines of the text, in order and untrimmed. |
| `CohereHandler.NonBlankLinesExample` | src/app/api/generate/generateQuestions.ts:32 | `"  Q1 \n\n A1"` gives `["  Q1 ", " A1"]`: blank lines go and spaces stay. |
| `CohereHandler.Handle` | src/app/api/generate/generateQuestions.ts:4-38 | A missing or empty subject gives 400 `Subject is required` before any call. A failed call gives 500 `Failed to generate questions`. A call that returns text gives 200 with exactly the non-blank lines of that text and no error. A 200 response has questions and no error, and any other has an error and no questions. |
| `CohereHandler.WhitespaceSubjectAccepted` | src/app/api/generate/generateQuestions.ts:7-9 | A subject of spaces is not rejected. |
| `EndToEnd.FetchOutcomeOf` | src/app/page.tsx:77-82 | The page accepts a response exactly when its status is 200 to 299, and then takes its question list. |
| `EndToEnd.CardQuestionHasNoMarker` | src/app/page.tsx:82-88 | A block that holds `"Q: "` at most at index 0 gives a card whose question holds no `"Q: "`. |
| `EndToEnd.BlocksBecomeCards` | src/app/api/generate/route.ts:44-49 | When the model answers, the page receives exactly the route's blocks. It shows one card per block, at most one more than the markers in the text, and no question keeps a `"Q: "`. |
| `EndToEnd.SubmitToRoute` | src/app/page.tsx:59-97 | The page posting to the route: a blank subject stops at the page, with the cards and the loading flag as they were. A missing key, or a model that throws, keeps the old cards and shows the failure message. When the model answers, the cards are exactly the parsed blocks of its text, with no error. |

## Left out

- Network calls are parameters of the model and are not modelled: the Gemini SDK (`generateContent`), `axios` to Cohere, the page's `fetch` and `response.json()`. The same goes for the URL, the headers and the `Authorization` value.
- Environment variables are reduced to present or absent (`Option<string>`). The Cohere handler never checks its key, so the model does not carry it.
- `request.json()` parsing and JSON values of other types are out. A non-string `subject`, a truthy non-boolean `includeCode` and a JSON error's exact text are not modelled. The body is either a parsed `GenerateRequestBody` or a failure with a message.
- `console.error` logging, `NextResponse` and `res.status().json()` construction beyond status and body, and React rendering (JSX, styles, keys) are out. Only the segment list `ContentRenderer` maps to elements is modelled.
- Asynchrony is out: two overlapping requests, and a click while the button is disabled, are UI timing, not logic.
- The provider's sampling settings (`model`, `max_tokens`, `temperature`, `k`, `stop_sequences`, `return_likelihoods`) are not modelled.
- The `interview-prep-gemini` variant of the route and the page is not part of this model. Its own logic is a fixed template literal and `Array.isArray`. Its real work is the provider call and `JSON.parse`.
- Strings are sequences of characters, not UTF-16 code units, so surrogate pairs are not modelled.
- `CohereHandler.Handle`: `response.data.generations[0].text` is taken as given. A response without that field throws inside the `try`, which is the `None` case.
- `QuestionPage.InterviewPage.GenerateQuestions`: the fetch's result is a parameter. A response that is not `ok` and a throw on the way are both `FetchFailed`, and `EndToEnd.SubmitToRoute` connects it to the route.
