# Love journey: a verified model of the memory creator

The application is a private timeline of "memories". The owner unlocks a
creation dialog with a secret code and writes a story. They attach photos
(resized in the browser) or import the text of a PDF. A generative model turns
the story into one HTML card. The card is saved in the browser's IndexedDB
store, and the timeline shows the cards newest first with the day of the
relationship they fall on.

This project models the logic around those steps and proves properties of it:

- `strings.dfy` (module `Strings`): the JavaScript string operations the code
  relies on. These are `indexOf`, `includes`, `split`/`join` with a non-empty
  separator, global replacement, `substring` (clamped and swapped arguments),
  `trim` (the ECMAScript whitespace and line-terminator set) and decimal
  rendering of a natural number.
- `types.dfy` (module `Types`): the stored record `MemoryItem`, the statistics
  record `DayStats`, and a thrown `Error` (name and message, with
  `Error.prototype.toString`).
- `gemini.dfy` (module `Gemini`): `generateSmartCanvas`. It covers the prompt
  text built with `+=` and the request parts pushed per image, including the
  data-URL split. It also covers fence removal and the placeholder
  substitution loop over `__IMAGE_i__`, with the list of images the reply
  never mentioned. Finally it covers the fallback strip of tiles appended for
  those images, and the single error every failure becomes.
- `dates.dfy` (module `Dates`): `getDaysTogether`, `getDayIndex` and
  `calculateDetailedStats` over integer milliseconds. The start instant is
  2022-05-23T00:00:00+08:00 = 1653235200000 ms, and `Math.ceil` is integer
  ceiling division.
- `assets.dfy` (module `Assets`): the width/height clamp of `resizeImage`,
  appending and removing photos, and the PDF import (type check, extraction,
  text merge).
- `pdf.dfy` (module `Pdf`): the page loop of `extractTextFromPdf`. A document
  is given as the item strings of each page.
- `storage.dfy` (module `Storage`): the object store as a class over a map
  keyed by `id`. `add` is `put` (insert or replace), `delete` removes one key,
  and `getAll` collects the values and sorts them in place, newest date first.
- `creator.dfy` (module `Creator`): the creation dialog as a class. Its fields
  are `step`, `password`, `date`, `text`, `images` and `prompt`. Its methods
  are `handleAuth` and `handleGenerateAndSave`, plus the construction of the
  new `MemoryItem` and the classification of the error alert. `step` has the
  type `Step = Auth | Edit | Generating`, so it cannot hold any other value.

Behaviours of the code that the model keeps as written:

- A data URL without `;` yields the media type `data:`. `indexOf(';')` is -1,
  and `substring` swaps its arguments (`Gemini.MimeTypeWithoutParameters`).
- `getAll` returns `[]` only when opening the database fails. When the read
  request fails, the returned promise rejects. It is returned without
  `await`, so the `try` around it does not catch the rejection
  (`Storage.MemoryStore.GetAll`).
- `calculateDetailedStats` can report 12 months: 360 to 364 days are 0 years,
  12 months and a few days (`Dates.TwelveMonthsReachable`).
- `Date.now()` is read twice when an entry is created, once for the id and
  once for `createdAt`. The model takes the two readings as separate
  parameters.

## Model

| member | source | states |
|---|---|---|
| Strings.IndexOf | services/gemini.ts:51 | the result is the first index where the pattern occurs, or -1 when it occurs nowhere |
| Strings.Contains | services/gemini.ts:82 | `includes` holds for the empty pattern and fails for a pattern longer than the string |
| Strings.ContainsExactly | services/gemini.ts:82 | `includes` holds iff the pattern occurs at some index |
| Strings.Join | services/gemini.ts:83 | `join` opens with the first piece, followed by the separator when there is a second piece; no pieces give "" |
| Strings.Split | services/gemini.ts:83 | there is at least one piece, and exactly one piece iff the separator does not occur |
| Strings.JoinSplit | services/gemini.ts:83 | joining the pieces of a split with the same separator gives back the string |
| Strings.SplitPiecesFree | services/gemini.ts:83 | no piece of a split contains the separator |
| Strings.SplitJoinChar | services/pdf.ts:18-20 | pieces free of a one-character separator, joined and split again, are the same pieces |
| Strings.ReplaceAll | services/gemini.ts:76 | a string without the pattern is returned unchanged |
| Strings.ReplaceAllUnfold | services/gemini.ts:76 | replacement is the text before the first occurrence, the replacement, then the rest with every occurrence replaced |
| Strings.Substring | services/gemini.ts:51 | `substring` gives the slice between its two arguments in either order. An argument below 0 counts as 0 and one past the end as the length: an end of -1 gives the prefix up to the start, and both arguments on the same side give "" |
| Strings.Trim | services/pdf.ts:25 | the result neither starts nor ends with whitespace |
| Strings.TrimIsSlice | services/pdf.ts:25 | the trimmed text is a slice of the input with only whitespace before and after it |
| Strings.TrimIdempotent | services/pdf.ts:25 | trimming twice equals trimming once |
| Strings.NatToString | components/Creator/CreatorModal.tsx:46 | the rendering is non-empty, all digits, and has a leading zero only for 0 |
| Strings.ParseNatToString | components/Creator/CreatorModal.tsx:46 | reading the rendered digits back gives the number |
| Strings.NatToStringInjective | components/Creator/CreatorModal.tsx:46 | different numbers have different renderings |
| Gemini.BuildPromptText | services/gemini.ts:37-43 | the `+=` sequence yields the content line, the image-count line when there are images, and the style line when a style is requested |
| Gemini.PromptOpensWithContent | services/gemini.ts:37-43 | the prompt starts with `Content to display: "<text>".\n` and is exactly as long as the lines it contains |
| Gemini.PromptCountLineIffImages | services/gemini.ts:38-40 | the image-count line follows the content line iff there is at least one image |
| Gemini.PromptEndsWithStyleIffRequested | services/gemini.ts:41-43 | the prompt ends in `.` iff the style prompt is present and non-empty, and then ends with the style line |
| Gemini.DataUrlPayload | services/gemini.ts:50 | the payload is the whole string, or a non-empty string without a comma |
| Gemini.DataUrlPayloadExactly | services/gemini.ts:50 | for every string, the payload is the slice after the first comma, up to the next comma or the end, when that slice is non-empty, and the whole string otherwise |
| Gemini.DataUrlMimeType | services/gemini.ts:51 | the media type is never empty (`image/jpeg` is the fallback) |
| Gemini.DataUrlPayloadRoundTrip | services/gemini.ts:50 | for `data:<type>;base64,<payload>` with no comma in type or payload, the payload is read back |
| Gemini.DataUrlMimeTypeRoundTrip | services/gemini.ts:51 | for a media type without `:` or `;`, the media type is read back, or `image/jpeg` when it is empty |
| Gemini.MimeTypeWithoutParameters | services/gemini.ts:51 | a data URL with no `;` anywhere yields the media type `data:` |
| Gemini.ImageParts | services/gemini.ts:47-59 | there is one inline image per data URL |
| Gemini.ImagePartsAt | services/gemini.ts:47-59 | the i-th inline image is read from the i-th data URL |
| Gemini.BuildParts | services/gemini.ts:44-59 | the pushes produce the text part followed by the inline images, in order |
| Gemini.BuildRequest | services/gemini.ts:34-59 | the request is the prompt text followed by one inline image per data URL |
| Gemini.StripFences | services/gemini.ts:76 | after cleanup the HTML contains neither "```html" nor "```" |
| Gemini.RemovingFencesLeavesNone | services/gemini.ts:76 | deleting every "```" cannot create a new one from the surrounding text |
| Gemini.StripFencesKeepsCleanHtml | services/gemini.ts:76 | a reply without fences passes through unchanged |
| Gemini.Placeholder | services/gemini.ts:81 | the placeholder's length is 10 plus the number of digits of the index |
| Gemini.PlaceholderNotNested | services/gemini.ts:81 | the placeholder of one index never occurs inside the placeholder of another (`__IMAGE_1__` is not in `__IMAGE_10__`) |
| Gemini.Stage | services/gemini.ts:79-87 | the HTML after the first k images is unchanged when the reply mentions none of their placeholders |
| Gemini.Unhandled | services/gemini.ts:80-86 | at most k of the first k images are unhandled |
| Gemini.SubstitutePlaceholders | services/gemini.ts:79-87 | the loop leaves the HTML and the unhandled list equal to the stage-by-stage definition after all images |
| Gemini.SubstitutionReplacesEveryOccurrence | services/gemini.ts:82-83 | when image i's placeholder is present, the HTML is cut at every occurrence, no piece keeps one, and the pieces are rejoined with the image |
| Gemini.UnhandledIndicesExact | services/gemini.ts:79-87 | an image's index is listed as unhandled iff its placeholder was absent when its turn came |
| Gemini.UnhandledIndicesIncreasing | services/gemini.ts:80-86 | the unhandled indices are strictly increasing, so the original order is kept |
| Gemini.UnhandledAtIndices | services/gemini.ts:85 | the unhandled list holds exactly the images at the unhandled indices |
| Gemini.NoPlaceholdersAllUnhandled | services/gemini.ts:79-87 | when the reply mentions none of the first k placeholders, all k images are unhandled, in order |
| Gemini.Tiles | services/gemini.ts:91-93 | there is one tile per unhandled image |
| Gemini.FallbackGridAppend | services/gemini.ts:91-93 | the grid of two image lists is the concatenation of their grids |
| Gemini.FallbackTileAt | services/gemini.ts:91-93 | image i's tile sits between the tiles of the images before and after it |
| Gemini.AppendFallback | services/gemini.ts:90-102 | with no unhandled image the HTML is returned unchanged; otherwise the HTML stays as the prefix, followed by the strip's opening, and the strip's closing ends the result |
| Gemini.AppendFallbackShape | services/gemini.ts:90-102 | with some unhandled image the HTML is followed by the strip, whose i-th tile shows the i-th unhandled image |
| Gemini.Canvas | services/gemini.ts:73-104 | with no images the card is the reply with its fences removed; when the cleaned reply uses no placeholder, the card is that reply with every image in the strip |
| Gemini.GenerateSmartCanvas | services/gemini.ts:73-109 | a failed model call gives the single error "Failed to generate memory canvas."; a reply gives the cleaned, substituted HTML with its fallback strip |
| Dates.CeilDiv | services/date.ts:8 | `Math.ceil(a / d)` is the least q with a <= q * d |
| Dates.CeilDivUnique | services/date.ts:14 | the ceiling is the only integer with that property |
| Dates.CeilDivMonotone | services/date.ts:14 | the ceiling grows with its numerator |
| Dates.DaysTogether | services/date.ts:5-9 | the count is non-negative and is the ceiling of the distance to the start over one day |
| Dates.DaysTogetherSymmetric | services/date.ts:7-8 | the count is the same the same distance before and after the start |
| Dates.DayIndex | services/date.ts:11-16 | the index is at least 1; after the start it is the ceiling of elapsed days, and on or before the start it is 1 |
| Dates.DayIndexMonotone | services/date.ts:11-16 | a later date never has a smaller index |
| Dates.FirstDayIsOne | services/date.ts:14-15 | the first 24 hours after the start are day 1 |
| Dates.DetailedStats | services/date.ts:18-30 | `daysTogether` equals the days-together count, `years*365 + months*30 + days` equals it, days are in 0..29, months in 0..12, and `months*30 + days` is below 365; together these fix every field |
| Dates.TwelveMonthsReachable | services/date.ts:21 | 360 days give a months field of 12 |
| Pdf.RawText | services/pdf.ts:15-23 | every page adds at least its blank line to the text |
| Pdf.RawTextSplit | services/pdf.ts:15-23 | the accumulated text of the pages is the text of the first k pages followed by that of the rest |
| Pdf.RawTextPrefix | services/pdf.ts:22 | one more page adds its text and a blank line |
| Pdf.RawTextPage | services/pdf.ts:15-23 | page i's text and blank line sit between the text of the pages before and after it, so pages are taken in order |
| Pdf.PageTextSplits | services/pdf.ts:18-20 | items are joined with exactly one space, so space-free items are recovered by splitting |
| Pdf.ExtractTextFromPdf | services/pdf.ts:6-30 | the loop's result is the trimmed concatenation; no pages give ""; the result has no outer whitespace; failure is "Failed to parse PDF file." |
| Assets.ResizeDimensions | components/Creator/AssetInput.tsx:19-33 | sizes up to 1024 are unchanged; both results are at most 1024, the ratio is kept, and a clamped image has one side of exactly 1024 |
| Assets.AppendImages | components/Creator/AssetInput.tsx:60 | the old photos come first and the new ones follow, both in order |
| Assets.RemoveImage | components/Creator/AssetInput.tsx:128 | exactly the photo at the index is removed, the rest keep their order; an index out of range changes nothing |
| Assets.RemoveAfterAppend | components/Creator/AssetInput.tsx:128 | removing the photo just appended gives back the previous photos |
| Assets.MergePdfText | components/Creator/AssetInput.tsx:82 | the merge keeps both texts: the story is a prefix and the extracted text a suffix. The separator sits between them when the story was not empty, and the length leaves room for nothing else |
| Assets.HandlePdfUpload | components/Creator/AssetInput.tsx:70-92 | a non-PDF is rejected with its alert and an extraction failure with its own; the text changes only on success |
| Assets.HandleImageUpload | components/Creator/AssetInput.tsx:52-68 | resized photos are appended and processing ends. If the chain throws, the "failed to load" alert is shown and the photos are unchanged. An image that never loads leaves the photos unchanged, shows no alert, and leaves processing set |
| Storage.KeyedValuesCount | services/storage.ts:54 | in a store keyed by id there are as many distinct items as keys |
| Storage.MemoryStore.Add | services/storage.ts:49-59 | `put` maps the item's id to it, replacing any earlier entry and leaving other keys unchanged; a failed request changes nothing |
| Storage.MemoryStore.Delete | services/storage.ts:61-71 | the id is gone and every other key is unchanged; a failed request changes nothing |
| Storage.MemoryStore.GetAll | services/storage.ts:25-47 | open failure gives []; request failure rejects; otherwise every stored item once, newest first |
| Storage.SortNewestFirst | services/storage.ts:35-38 | after the in-place sort the array is ordered by date, non-increasing, and is a permutation of what it held |
| Storage.InsertNewestFirst | services/storage.ts:35-38 | one insertion step extends the ordered prefix by one item and keeps the multiset |
| Creator.ErrorText | components/Creator/CreatorModal.tsx:71 | `e.message \|\| e` is the message, or the error's name when the message is empty |
| Creator.ErrorAlert | components/Creator/CreatorModal.tsx:65-72 | the storage-full alert iff the message contains "QuotaExceeded"; the time-out alert iff it contains "Failed to generate" and not "QuotaExceeded"; otherwise "Error: " followed by the error's text |
| Creator.GenerationFailureAlert | components/Creator/CreatorModal.tsx:65-72 | the generation error always gets the time-out alert |
| Creator.NewItem | components/Creator/CreatorModal.tsx:45-52 | the entry's day index is at least 1, and more than 1 for a date past the first day |
| Creator.NewItemIdsDistinct | components/Creator/CreatorModal.tsx:46 | entries created at different milliseconds have different ids |
| Creator.CreatorModal.constructor | components/Creator/CreatorModal.tsx:15-22 | a new dialog is locked, with an empty form dated today |
| Creator.CreatorModal.HandleAuth | components/Creator/CreatorModal.tsx:26-34 | "1314" moves the dialog to editing; any other code alerts and leaves the step unchanged |
| Creator.CreatorModal.HandleGenerateAndSave | components/Creator/CreatorModal.tsx:36-76 | an empty form alerts and changes nothing; a generation or store failure alerts, returns to editing and saves nothing; success saves the entry, locks the dialog and clears everything but the date |
| Creator.CreatorModal.SaveGenerated | components/Creator/CreatorModal.tsx:45-61 | the entry built from the form (date, day index, text, images, card) is put under its id; the reset follows only a successful write |

## Left out

- The model call itself, its system instruction and the network are not modelled; `reply` stands for the response, or for a thrown call.
- The reply's `text` getter is only modelled as present or missing.
- `html.replace(/```html/g, '')` is modelled as a split/join on the literal; a regular expression engine is not part of this model.
- Strings are sequences of Unicode scalar values, not UTF-16 code units; lengths and indices differ only for characters outside the Basic Multilingual Plane.
- HandleImageUpload: `resizeImage` never rejects and installs no `onerror` handler, so an image that fails to load leaves `Promise.all` pending. No alert is shown, nothing is appended, and the "processing" flag stays set; the model gives this case as `NeverSettles`. The `catch` runs only if the promise chain throws, for example when `readAsDataURL` rejects its argument.
- `resizeImage`: the FileReader, the Image element, canvas drawing, JPEG encoding and the truncation of the float sizes assigned to `canvas.width`/`canvas.height` are not modelled. Only the clamp is modelled, over exact reals.
- The resized data URLs reach `HandleImageUpload` as a parameter, because the resize runs in the browser. `isProcessingPdf` only drives the display and is not modelled.
- `extractTextFromPdf`: pdfjs parsing and its worker set-up are not modelled. A document is its pages' item strings, or `None` when the library fails.
- The storage service: opening IndexedDB, transactions, the upgrade handler and callbacks are not modelled. Their failures are `Option<JsError>` parameters, and only the map semantics of the object store are modelled.
- Dates are integer milliseconds. Parsing the ISO date strings and `NaN` dates are not modelled. The date picker's initial value (today in UTC) is the constructor's parameter.
- `Date.now()` and the current clock are parameters (`nowMs`, `idClock`, `createdClock`).
- `formatDate` depends on locale formatting and is not modelled.
- A thrown value is always an error with a name and a message. Thrown non-errors and a missing `message` are not modelled.
- React rendering, effects, `isOpen`, and the `onSave`/`onClose` callbacks are not modelled. The `generating` step is set during `HandleGenerateAndSave`, but only the state after the call is specified.
- Field setters bound to the form inputs are plain field assignments and have no methods.
- Logging to the console is not modelled.
- The "Up to 9" photo label is not enforced by the code and is not modelled.
- Storage.MemoryStore.GetAll: the items are collected from the map in an unspecified order before sorting, so items with equal dates may come out in any order. The source sorts the store's key order stably.
