# Storyboard generator: a Dafny model of its logic

The application turns a script into a storyboard. It splits the script
into sentences. It makes one scene per sentence. It then asks a remote image
model for one picture per scene, one call after another. The user can
regenerate a single scene and can set up a character reference (a name, a
description and an optional image). This project models that logic and
proves what the code does:

- `Types` (types.ts): the `Scene`, `CharacterProfile` and `GenerationStatus`
  records, plus `Option` for JavaScript's optional values and `Result` for a
  call that resolves or throws.
- `JsStrings`: the JavaScript built-ins the code relies on. These are
  `trim`, `split` with a one-character separator, and the decimal printing
  of a number in a template literal.
- `Segmenter`: `splitScriptToSentences`, the global regular-expression match
  followed by trim and filter. It has a second, line-by-line definition and
  a proof that the two agree.
- `SegmenterExamples`: concrete scripts and the sentences they give.
- `Scenes`: building the scenes of an analysis, and the
  `prev.map(s => s.id === id ? {...s, …} : s)` update that every status
  change goes through.
- `GeminiService`: `generateSceneImage`. It covers the key check, the
  request parts and prompt, the scan of the response for the first inline
  image, the `data:` URL, and the re-wrapping of every failure.
- `CharacterSetup`: the profile updates of the character form and the
  `split(',')[1]` payload extraction.
- `Storyboard`: the `App` class. Its fields are `scenes`, `globalStatus` and
  `isAnalyzed`, and its methods are analyse, reset, the batch generation
  loop and regenerate.

The remote client is replaced by the reply it hands back: either a response
(candidates, then parts, then optional inline data) or a rejection carrying
a message. The batch gets a sequence of replies. Its calls consume them in
order.

Where the code behaves differently from what its own comments say, or from
what a reader might expect, the model follows the code:

- **Segmentation is per line.** The comment at App.tsx:36-37 describes a
  split at punctuation followed by a space. The pattern at App.tsx:38 must
  end at a newline or at the end of the input, so each line gives at most
  its final fragment. `"A. B! C?"` gives `["C?"]`, not three sentences.
  `"Hi. "`, `"Hi.."` and `"..."` give nothing. With CRLF line endings a
  punctuated line gives nothing, because `\r` is an ordinary character.
- **Updates merge.** The status updates spread the old scene
  (App.tsx:88, 95, 101, 114, 120, 126), so they keep the fields they do not
  name. A scene can hold an image URL and an error message at the same
  time.
- **The batch reads its snapshot.** The loop reads the `scenes` array that
  was current when the batch started (App.tsx:81-91). It writes through
  functional updates to the live list.

## Model

| member | source | states |
|---|---|---|
| Types.Truthy | App.tsx:72 | defines JavaScript truthiness of an optional string: present and non-empty (no contract; the rows that use it state the properties) |
| Types.InitialCharacter | App.tsx:15-20 | defines the initial profile: empty name and description, both image fields null (no contract; InitialProfileStaysPaired is about it) |
| JsStrings.Trim | App.tsx:38 | `trim` returns the slice left after removing leading and trailing white space; the result neither starts nor ends with white space, and it is empty exactly when the input is all white space |
| JsStrings.TrimDetermined | App.tsx:38 | any slice that drops only white space and neither starts nor ends with it is the trimmed text |
| JsStrings.TrimAppendWhiteSpace | App.tsx:38 | a trailing white-space character does not change the trimmed text |
| JsStrings.Split | components/CharacterSetup.tsx:19 | `split` with one separator gives at least one piece, and no piece holds the separator |
| JsStrings.JoinSplit | components/CharacterSetup.tsx:19 | joining the pieces of a split with the separator gives back the text |
| JsStrings.SplitJoin | components/CharacterSetup.tsx:19 | splitting a join of separator-free pieces gives back the pieces |
| JsStrings.SplitFirst | components/CharacterSetup.tsx:19 | for `split` with one separator (also behind the `text.split('\n')` lines of the segmenter's line-by-line reference), the first piece of a split runs up to the first separator; the rest is the split of what follows it |
| JsStrings.DecimalString | App.tsx:50 | the printed number is non-empty and made of decimal digits |
| JsStrings.ParseDecimalString | App.tsx:50 | reading the printed digits back gives the number |
| JsStrings.DecimalStringInjective | App.tsx:50 | distinct numbers print differently |
| Segmenter.RunEnd | App.tsx:38 | the run of `[^.!?\n]` characters from a position ends at the first character outside the class |
| Segmenter.MatchAt | App.tsx:38 | a match found at `p` ends after `p` and within the text |
| Segmenter.MatchAtIsMatch | App.tsx:38 | `MatchAt` finds exactly the matches of the pattern that start at `p`: body characters, at most one mark, then a newline or the end of the text |
| Segmenter.Scan | App.tsx:38 | defines the `g`-flag `match`: the leftmost match at or after a position, then the search resumes where it ended, a position without a match skipped (no contract; ScanByLine and ScanShape state its properties) |
| Segmenter.TrimAll | App.tsx:38 | `.map(s => s.trim())` keeps the length and trims each element |
| Segmenter.NonEmpty | App.tsx:38 | `.filter(s => s.length > 0)` keeps exactly the non-empty elements |
| Segmenter.NonEmptyConcat | App.tsx:38 | the filter works element by element: it distributes over concatenation, drops an empty element and keeps a non-empty one, so it keeps order and repeats |
| Segmenter.SplitScriptToSentences | App.tsx:35-39 | defines the segmenter as `match`, then trim, then filter, with no match giving the empty list (no contract; SegmentsAreLineFragments, AtMostOnePerLine, SentencesHaveShape and BlankScriptHasNoSentences state its properties) |
| Segmenter.LineFragment | App.tsx:38 | a line's fragment is a suffix of the line made of body characters and at most one final mark |
| Segmenter.LineFragmentLongest | App.tsx:38 | the fragment found is the longest one: no longer suffix of the line is a fragment, and when none is found no suffix is |
| Segmenter.MatchAtLine | App.tsx:38 | a match starts at `p` exactly when the rest of its line is a fragment, and it then runs to the end of the line, taking the newline with it |
| Segmenter.ScanByLine | App.tsx:38 | the global match from any position gives, after trimming, the fragments of the remaining lines in order |
| Segmenter.SegmentsAreLineFragments | App.tsx:38 | `splitScriptToSentences` equals the line-by-line definition: the trimmed, non-empty final fragment of every line of `text.split('\n')`, in input order |
| Segmenter.AtMostOnePerLine | App.tsx:38 | there are never more sentences than lines |
| Segmenter.ScanShape | App.tsx:38 | every raw match has a newline only as its last character, and a mark only at its end or just before a final newline |
| Segmenter.TrimRawShape | App.tsx:38 | trimming a raw match leaves a well-shaped sentence when anything is left |
| Segmenter.SentencesHaveShape | App.tsx:38 | every sentence is non-empty, has no white space at either end, has no newline, and holds `.`, `!` or `?` only as its last character |
| Segmenter.BlankScriptHasNoSentences | App.tsx:38 | an empty or white-space-only script gives no sentences |
| SegmenterExamples.ExampleTwoLines | App.tsx:38 | `"Hello.\nWorld"` gives `["Hello.", "World"]` |
| SegmenterExamples.ExampleOneLine | App.tsx:38 | `"A. B! C?"` gives only `["C?"]` |
| SegmenterExamples.ExampleMarksOnly | App.tsx:38-47 | `"..."` is not blank yet gives no sentence, so analysis stops at its empty-list guard |
| SegmenterExamples.ExampleDoubleMark | App.tsx:38 | `"Hi.."` gives no sentence |
| SegmenterExamples.ExampleTrailingSpace | App.tsx:38 | `"Hi. "` gives no sentence |
| SegmenterExamples.ExampleCrLf | App.tsx:38 | `"Hi.\r\nYo"` gives only `["Yo"]` |
| Scenes.SceneId | App.tsx:50 | defines the id `scene-${Date.now()}-${idx}` from a clock reading and an index (no contract; SceneIdPieces and SceneIdInjective state its properties) |
| Scenes.SceneIdPieces | App.tsx:50 | an id splits at `-` into `scene`, the stamp and the index |
| Scenes.SceneIdInjective | App.tsx:50 | equal ids come from equal stamps and equal indices |
| Scenes.NewScenes | App.tsx:49-53 | one scene per sentence, in order: scene `i` holds sentence `i`, is pending, has no image and no message, and the ids are pairwise distinct whatever the clock reads |
| Scenes.Apply | App.tsx:88 | each spread sets only the fields it names: a success keeps an old message, a failure keeps an old image, and only the regenerating patch clears the message |
| Scenes.UpdateById | App.tsx:88 | the update keeps the length and order, patches every scene with the id and leaves every other scene unchanged |
| Scenes.UpdateKeepsIds | App.tsx:93-103 | an update keeps the ids in their order, hence their distinctness |
| Scenes.UpdateAbsent | App.tsx:88 | an update with an id no scene has changes nothing |
| Scenes.UpdateAt | App.tsx:118-128 | with distinct ids, the update patches exactly the scene at the id's position |
| Scenes.FindIndex | App.tsx:111 | `find` picks the first scene with the id, or reports that none has it |
| Scenes.StaleFieldsCoexist | App.tsx:95-101 | a scene that failed and later succeeds holds both an image and an error message, and so does one that succeeded, was regenerated and failed |
| GeminiService.ReferenceSlot | services/geminiService.ts:34 | defines the slot: the "CRITICAL INSTRUCTION" sentence when `imageBase64` is truthy, else empty (no contract; PromptReference states its property) |
| GeminiService.Prompt | services/geminiService.ts:31-47 | defines the prompt template with the scene text, the slot, the name and the description filled in (no contract; the three Prompt lemmas state its properties) |
| GeminiService.PromptQuotesScene | services/geminiService.ts:31-34 | the prompt holds the scene text right after its opening sentence, followed by the reference slot |
| GeminiService.PromptNamesCharacter | services/geminiService.ts:36-38 | the prompt holds the character's name and description at their places |
| GeminiService.PromptReference | services/geminiService.ts:34 | the "CRITICAL INSTRUCTION" sentence is in its slot exactly when `imageBase64` is non-empty, and the prompt does not depend on `mimeType` |
| GeminiService.RequestParts | services/geminiService.ts:18-28 | there are 1 or 2 parts; the image part comes first exactly when `imageBase64` and `mimeType` are both non-empty; the prompt is always the last part |
| GeminiService.DataUrl | services/geminiService.ts:66-68 | defines `data:${mimeType \|\| 'image/png'};base64,${data}`, a missing `data` rendered as `undefined` (no contract; GeneratedUrlPayload states its properties) |
| GeminiService.FirstInline | services/geminiService.ts:64-65 | the scan stops at the first part with inline data; no part before it has any |
| GeminiService.ImageOf | services/geminiService.ts:60-71 | defines the image a response yields: the data URL of the first inline part of the first candidate, or none (no contract; ExtractImage, OnlyFirstCandidate, FirstInlinePartWins and NoImageWithoutInlineData state its properties) |
| GeminiService.OnlyFirstCandidate | services/geminiService.ts:60-62 | only the first candidate is read; the others never change the result |
| GeminiService.FirstInlinePartWins | services/geminiService.ts:64-68 | the image is the `data:` URL of the first part with inline data, whatever follows it |
| GeminiService.ExtractImage | services/geminiService.ts:60-71 | the `for … of` loop with its early return yields the image of the first inline part of the first candidate, or nothing |
| GeminiService.Rewrap | services/geminiService.ts:77 | the re-thrown message is never empty; it is the original message when that is non-empty, and `이미지 생성에 실패했습니다.` when it is empty |
| GeminiService.GenerationResult | services/geminiService.ts:12-77 | defines what the call resolves to for a given reply (no contract; GenerateSceneImage and GenerationFailures state its properties) |
| GeminiService.GenerateSceneImage | services/geminiService.ts:12-77 | with an empty key the call fails with the missing-key message and sends nothing; otherwise it sends exactly one request, to `gemini-2.5-flash-image`, carrying the request parts, and resolves to the image or fails with the re-wrapped message |
| GeminiService.GenerationFailures | services/geminiService.ts:12-77 | every failure has a non-empty message; an empty key gives the missing-key error; a response without an image gives the "no image data" error; a non-empty rejection message is kept, and an empty one becomes the default failure message |
| GeminiService.NoImageWithoutInlineData | services/geminiService.ts:73 | a response with no candidates, or whose first candidate has no inline data, yields no image |
| CharacterSetup.Base64Payload | components/CharacterSetup.tsx:19 | `split(',')[1]` is undefined exactly when the text has no comma |
| CharacterSetup.Upload | components/CharacterSetup.tsx:22-26 | an upload sets `imageBase64` and `mimeType` together and keeps the name and description |
| CharacterSetup.RemoveImage | components/CharacterSetup.tsx:33 | removing sets both image fields to null and keeps the name and description |
| CharacterSetup.EditName | components/CharacterSetup.tsx:96 | a name edit changes only the name |
| CharacterSetup.EditDescription | components/CharacterSetup.tsx:107 | a description edit changes only the description |
| CharacterSetup.EditsKeepImagePaired | components/CharacterSetup.tsx:22-33 | from a profile whose image fields are both null or both set, any sequence of edits keeps them so, as long as every reader result is a data URL |
| CharacterSetup.InitialProfileStaysPaired | App.tsx:15-20 | from the initial profile, `imageBase64` is null exactly when `mimeType` is null after any sequence of edits, as long as every reader result is a data URL (has a comma) |
| CharacterSetup.UploadWithoutComma | components/CharacterSetup.tsx:19-26 | a reader result without a comma leaves `imageBase64` undefined next to a set `mimeType` |
| CharacterSetup.PayloadRoundTrip | components/CharacterSetup.tsx:19 | from `"data:" + m + ";base64," + d`, the extraction returns `d` when neither `m` nor `d` has a comma |
| CharacterSetup.GeneratedUrlPayload | services/geminiService.ts:66-68 | the generator's URL is `data:` plus the type, or `image/png` when it is missing or empty, then `;base64,` and the data. When neither the data nor the type has a comma, the extraction reads that data back, and a part without data gives the payload `undefined` |
| CharacterSetup.PayloadWithCommaInType | components/CharacterSetup.tsx:19 | for the type `a,b` and the data `QUJD`, the extraction returns `b;base64` (the part of the type after its comma, plus `;base64`) instead of the data |
| CharacterSetup.EditsCommute | components/CharacterSetup.tsx:22-33 | each of the name and description edits commutes with each of the upload and the removal |
| Storyboard.CharacterIsEmpty | App.tsx:72 | defines the empty-character test: name, description and `imageBase64` all falsy (no contract; StartGeneration states its use) |
| Storyboard.Proceeds | App.tsx:67-76 | defines when generation starts: a non-empty key, and a non-empty character or a confirmed prompt (no contract; StartGeneration states its use) |
| Storyboard.AnalyzedSceneShape | App.tsx:49-53 | every scene of an analysis is pending and holds a well-shaped sentence |
| Storyboard.PendingMonotone | App.tsx:81-83 | the number of calls made so far never decreases along the loop |
| Storyboard.CallsBefore | App.tsx:81-91 | the scene texts sent to the generator, one per scene not completed, in list order |
| Storyboard.CallsSkip | App.tsx:83 | a completed scene adds no call |
| Storyboard.Finish | App.tsx:90-104 | defines the try/catch choice: the completed spread with the URL on success, the error spread with the message on failure (no contract; Finished states its effect) |
| Storyboard.Outcome | App.tsx:91 | defines the awaited call of the batch's pass over scene `i`: the generator on its text with the reply that follows those of the earlier scenes not completed (no contract; BatchFrom and BatchOutcome state its use) |
| Storyboard.Finished | App.tsx:88-103 | a scene the batch went through keeps its id and text, and ends completed with the URL (keeping any old message) or failed with the message (keeping any old image) |
| Storyboard.CallStepAt | App.tsx:88-103 | with the snapshot's ids, the two updates of one pass patch exactly the scene at that index |
| Storyboard.PassStep | App.tsx:85-103 | the two updates of one pass, with the snapshot's ids, patch exactly the scene at that index with its call's outcome, keep the ids, and leave the rest of the batch to the later scenes |
| Storyboard.RunBatch | App.tsx:81-105 | defines the loop over the snapshot: skip completed scenes, otherwise the two updates by id with the next reply's outcome (no contract; BatchFrom, BatchOutcome, NothingPending and RerunAllCompleted state its properties) |
| Storyboard.BatchFrom | App.tsx:81-105 | from index `i` on, the batch finishes every scene not completed in the snapshot with its own call's outcome and leaves the others as they are |
| Storyboard.BatchOutcome | App.tsx:81-105 | over the whole list, each scene not completed ends completed or failed with the outcome of its own call, one failure does not stop the later scenes, and every completed scene is left unchanged |
| Storyboard.NothingPending | App.tsx:83 | over scenes that are all completed the batch calls nothing |
| Storyboard.RerunAllCompleted | App.tsx:81-83 | a rerun over scenes that are all completed leaves the list unchanged |
| Storyboard.Regenerated | App.tsx:110-130 | defines the list after a regenerate: unchanged for an unknown id, else the generating update (clearing the message) then the outcome update (no contract; RegenerateUnknownId and RegenerateOneScene state its properties) |
| Storyboard.RegenerationRequest | App.tsx:111-117 | defines the text sent by a regenerate, none for an unknown id (no contract; RegenerateScene states its use) |
| Storyboard.RegenerateUnknownId | App.tsx:111-112 | regenerating an id not in the list changes nothing and sends nothing |
| Storyboard.RegenerateOneScene | App.tsx:110-130 | regenerating changes only that scene: a success sets the image and clears the message, a failure sets the message and keeps the old image |
| Storyboard.App.constructor | App.tsx:23-25 | the app starts with no scenes, status idle and nothing analysed |
| Storyboard.App.AnalyzeScript | App.tsx:42-57 | with no sentence nothing changes (the alert case); otherwise the scenes become one new pending scene per sentence with distinct ids, and the script counts as analysed |
| Storyboard.App.ResetAnalysis | App.tsx:59-63 | reset empties the scenes, clears the analysed flag and sets the status to idle |
| Storyboard.App.StartGeneration | App.tsx:66-108 | with no key, or when the user declines the empty-character prompt, nothing changes and nothing is called; otherwise the scenes become the result of the batch over their snapshot, the calls are the texts of the scenes not completed, in order, and the status ends completed whatever the outcomes |
| Storyboard.App.ProcessScenes | App.tsx:81-105 | the loop turns the list into the batch result over its snapshot, keeps the ids distinct and leaves `globalStatus` at the processing value set just before it |
| Storyboard.App.PassAt | App.tsx:81-104 | the pass over scene `i` of the snapshot finishes the live scene at `i` with the reply after those of the earlier calls, keeps the ids and advances the batch by one scene |
| Storyboard.App.GenerateOne | App.tsx:85-104 | one pass marks the scene with the id generating, awaits the call on its text, then marks it completed with the URL or failed with the message |
| Storyboard.App.RegenerateScene | App.tsx:110-130 | regenerate gives the list `Regenerated`, sends the request of that scene (or none), keeps distinct ids and never touches the global status |

## Left out

- JSX rendering and styling: components/SceneCard.tsx, components/ScriptInput.tsx, App.tsx:132-256 and components/CharacterSetup.tsx:37-112. They are presentation only.
- Loading and saving the API key in `localStorage` (App.tsx:10-13, 28-32). This is browser persistence, so the key is a parameter.
- `alert` and `confirm` (App.tsx:45, 68, 73). The confirmation is a boolean input. `AnalyzeScript` returns whether it would alert.
- `Date.now()`: each scene's clock reading is a parameter (`stamps`). The ids are distinct whatever values it holds.
- The `GoogleGenAI` client and the network (services/geminiService.ts:16, 51-56). They are a foreign library, so each call gets a `Reply` given as input.
- `console.error` (services/geminiService.ts:76). It is output only.
- `FileReader` and the DOM ref reset (components/CharacterSetup.tsx:16-18, 28, 34). They are I/O, so the reader's result string is an input.
- Async interleaving: a regenerate racing a batch on the same id, and the `useCallback` dependency list that omits `apiKey` (App.tsx:130). These are concurrency and React closure semantics, so every operation runs to completion on its own.
- Optional SDK fields: `candidates[0].content` and its `parts` are taken to be present (a missing `inlineData.data` is modelled, and renders as `undefined`). When they are absent the code throws a `TypeError` whose message depends on the engine.
- `null` and `undefined` are both `None`. A thrown object without a `message` is a rejection with the empty message, which the catch turns into the default failure message. A thrown `null` or `undefined` is not modelled: reading `error.message` at services/geminiService.ts:77 then throws a `TypeError` itself. The rejection then carries the engine's message for it, which App.tsx:101 and App.tsx:126 record.
- Storyboard.App.StartGeneration: records the scene texts it passes to the generator rather than the full requests. `GenerateSceneImage` states the request of each call.
- Strings are sequences of Unicode scalar values, while JavaScript strings are UTF-16 code units. A lone surrogate cannot be represented. This does not affect the pattern or `trim` on well-formed text.
- The numbers in ids are non-negative integers printed in decimal. Floating-point clock values are not modelled.
