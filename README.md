# yoink.page conversion endpoints, modelled in Dafny

yoink.page turns a screenshot into HTML. This project models the server
endpoints that do the work and proves properties of them:

- **`POST /api/convert-stream`** (`ConvertStream`, `ConvertStreamProperties`).
  The endpoint first asks the rate limiter. It then checks the uploaded data
  URL, cuts out the base64 payload and picks the model. It announces a
  conversion id and fetches the streaming chat completion. Each upstream read
  is scanned line by line, and every non-empty content fragment is relayed as
  a `chunk` event. At the end it formats, stores and announces the markup,
  or writes a single `error` event.
  - The handler is imperative Dafny: the methods `ConvertStream`, `Attempt`,
    `Respond` and `Complete`, and the read loops `Relay` and `RelayLines`
    with the per-line step `RelayLine`.
  - Each method is proved equal to a specification function (`Handle`,
    `Attempted`, `Relayed`, `Finish`, `Fragments`, `LineFragments`).
  - The protocol properties are lemmas about those functions.
  - Side effects (response writes, the fetch, the insert) are recorded in
    order in a trace of `Effect`s.
- **`POST /api/convert`** (`Convert`). One chat call, then a chain of checks
  on its reply, the insert, and the classification of whatever was thrown
  into an HTTP error. It is a pure function returning a `Result` and the
  effects.
- **`GET /api/usage`** (`Usage`).
  - A method gets or mints the session id.
  - The day key, the count default and the summary arithmetic are functions.
  - The usage table is an input value, so the endpoint cannot write to it.
- **`POST /api/preview`** (`Preview`). Three global, case-insensitive
  replace passes, then a fixed HTML document around the result.
- **The exporters** in `app/lib/transformers.ts` (`Transformers`):
  `htmlToReact`, `htmlToVue` and `htmlToSvelte`.

Shared pieces:

- `Request`: the data-URL check, the payload slice, the model fallback, the
  upstream request and the conversion row, used by both conversion
  endpoints.
- `Rewrite`: one driver for JavaScript's `String.prototype.replace` with a
  global regular expression. Each regular expression is a dedicated matcher
  function, not a general regex engine.
- `Text`: the JavaScript string primitives used: `trim` with its whitespace
  set, `split`, and ASCII case folding.
- `Wrappers`: `Option` and `Result`.

Inputs the code gets from outside become parameters:

- the rate limiter's decision (`denied`);
- the configured API key and model (`None` when the value is not a string);
- the generated UUID (`freshId`);
- the current time (`now`, as an ISO string);
- what the upstream returns (`Upstream`, `ChatReply`);
- the oracles `parse` (`JSON.parse` plus the content extraction), `format`
  (the formatter) and `insert` (whether the database insert commits).

## Model

| member | source | states |
|---|---|---|
| Request.DataUrlPrefix | server/api/convert-stream.post.ts:7-9 | a successful scan of `data:image/<letters>;base64,` ends at a comma, at least 20 characters in |
| Request.DataUrlPrefixIff | server/api/convert-stream.post.ts:7-9 | for `data:image/` + t + `;base64,` + rest, the scanner accepts with its prefix ending right after the marker exactly when t is one or more ASCII letters, in both directions |
| Request.DataUrlPrefixSound | server/api/convert.post.ts:6-8 | every accepted image begins with `data:image/`, a letter subtype and `;base64,` |
| Request.Base64Payload | server/api/convert-stream.post.ts:35 | `image.split(',')[1]`, `None` for `undefined`; `PayloadNeedsComma` and `PayloadFollowsMarker` state what it is |
| Request.PayloadNeedsComma | server/api/convert-stream.post.ts:35 | `image.split(',')[1]` is defined exactly when the image holds a comma, and then holds no comma itself |
| Request.PayloadFollowsMarker | server/api/convert-stream.post.ts:35 | for an accepted image, `image.split(',')[1]` is exactly the text after `;base64,` up to the next comma or the end |
| Request.ResolveModel | server/api/convert-stream.post.ts:44-45 | the model fallback; `ResolvedModel` states which model is used |
| Request.ResolvedModel | server/api/convert-stream.post.ts:44-45 | the configured model is used unchanged and untrimmed exactly when it is a string with non-whitespace content; otherwise `moonshotai/kimi-k2.5`; the result is never blank |
| Request.ForwardedUrlRoundTrip | server/api/convert-stream.post.ts:76 | the forwarded URL is the payload behind `data:image/png;base64,`; it passes the same check and yields the same payload, so the `undefined` case never arises |
| Request.BuildRequest | server/api/convert-stream.post.ts:67-83 | the variable part of the request body: the resolved model and `data:image/png;base64,` + the payload, `undefined` when there is none; its properties are `ForwardedUrlRoundTrip` and `ResolvedModel` |
| Request.SubtypeUrlPayload | server/api/convert-stream.post.ts:34-35 | a comma-free payload behind `data:image/<letters>;base64,` passes the schema check and is exactly what `split(',')[1]` returns |
| Request.PngUrlPayload | server/api/convert.post.ts:62 | a comma-free payload behind the PNG prefix is accepted and comes back out unchanged |
| ConvertStream.LineFragment | server/api/convert-stream.post.ts:106-120 | what one line contributes; `LineFragmentContributes` states when and what |
| ConvertStreamProperties.LineFragmentContributes | server/api/convert-stream.post.ts:106-120 | a line contributes exactly when it starts with `data: `, its payload is not `[DONE]` and parses to non-empty content, and it then contributes that content |
| ConvertStream.LineFragments | server/api/convert-stream.post.ts:105-122 | the fragments of one read's lines, in order, all non-empty |
| ConvertStream.Fragments | server/api/convert-stream.post.ts:98-123 | the fragments relayed from a body, read by read, are all non-empty |
| ConvertStream.ReadFragments | server/api/convert-stream.post.ts:102-103 | each read is split on `\n` on its own, and its fragments are non-empty |
| ConvertStream.Relay | server/api/convert-stream.post.ts:95-123 | the read loop relays exactly `Fragments(received)`, in order, and the accumulated text equals their concatenation |
| ConvertStream.RelayLines | server/api/convert-stream.post.ts:105-122 | the line loop appends exactly the fragments of the read's lines and keeps `fullHtml` equal to the concatenation of all chunks so far |
| ConvertStream.RelayLine | server/api/convert-stream.post.ts:106-120 | a `data: ` line other than `[DONE]` whose payload parses to non-empty content relays exactly that content and appends it to `fullHtml`; any other line changes nothing |
| ConvertStream.Respond | server/api/convert-stream.post.ts:85-148 | after the fetch the trace is `Relayed`: a lone error without a readable successful response; otherwise the chunks, then insert and done, or an error |
| ConvertStream.Complete | server/api/convert-stream.post.ts:125-148 | after the loop the trace is `Finish`: a broken read or a failed format is an error; otherwise the insert, then `done` if it commits, else an error |
| ConvertStream.Attempt | server/api/convert-stream.post.ts:32-58 | the guarded block writes a lone error for a rejected request; otherwise the id event, the fetch of the built request, and `Respond`'s trace |
| ConvertStream.ConvertStream | server/api/convert-stream.post.ts:22-150 | the handler's outcome is `Handle`: 429 on denial, otherwise the attempted trace |
| ConvertStream.ChunkWrites | server/api/convert-stream.post.ts:116 | one chunk write per fragment |
| ConvertStream.Relayed | server/api/convert-stream.post.ts:85-148 | the trace after the fetch, the specification of `Respond`; `DoneExactlyOnSuccess` and `StreamFollowsProtocol` state its properties |
| ConvertStream.Finish | server/api/convert-stream.post.ts:125-148 | the trace after the read loop, the specification of `Complete`; `FinishEnds` and `FinishWritesOneTerminal` state its properties |
| ConvertStream.Attempted | server/api/convert-stream.post.ts:32-58 | the trace of the guarded block, the specification of `Attempt`; `InvalidRequestIsOneError` and `ChunksRelayedInOrder` state its properties |
| ConvertStream.Handle | server/api/convert-stream.post.ts:22-150 | the handler's outcome, the specification of `ConvertStream`; `DenialComesFirst` states its properties |
| ConvertStreamProperties.DenialComesFirst | server/api/convert-stream.post.ts:27-30 | a denial is answered with 429 "Rate limit exceeded. Try again later." and nothing is written, fetched or stored; only a denial gives 429 |
| ConvertStreamProperties.InvalidRequestIsOneError | server/api/convert-stream.post.ts:33-42 | a bad image or a non-string API key gives exactly one `error` "Conversion failed" and no id; the first event is the id exactly when the request is acceptable |
| ConvertStreamProperties.StreamFollowsProtocol | server/api/convert-stream.post.ts:56 | once the id is announced the events are `id, chunk*, (done or error)` |
| ConvertStreamProperties.DoneExactlyOnSuccess | server/api/convert-stream.post.ts:126-148 | the stream ends in `done` exactly when the response is ok, readable and read to the end, formatting succeeds and the insert commits; then the insert of (id, `anonymous`, format(trim(fullHtml))) comes right before `done`, which carries the same html and id; otherwise the last event is `error` |
| ConvertStreamProperties.ChunksRelayedInOrder | server/api/convert-stream.post.ts:112-117 | every fragment is written as a `chunk`, in arrival order, right after the id and the fetch of the built request |
| ConvertStreamProperties.FinishWritesOneTerminal | server/api/convert-stream.post.ts:126-148 | after the loop exactly one terminal event is written |
| ConvertStreamProperties.FinishEnds | server/api/convert-stream.post.ts:126-148 | the steps after the loop are exactly the insert of the formatted markup and `done` when the body was read to the end, the format succeeded and the insert committed; otherwise they end in `error` |
| ConvertStreamProperties.FragmentsAppend | server/api/convert-stream.post.ts:98-103 | the fragments of consecutive reads are the fragments of each read, concatenated |
| ConvertStreamProperties.SilentLines | server/api/convert-stream.post.ts:106-120 | a non-`data: ` line, a `[DONE]` payload, an unparsable payload and an empty content each contribute nothing |
| ConvertStreamProperties.SilentReadSkipped | server/api/convert-stream.post.ts:108 | a read that contributes nothing (such as `data: [DONE]`) leaves the relayed fragments of the reads around it unchanged: the loop does not stop there |
| ConvertStreamProperties.LineSplitAcrossReadsIsLost | server/api/convert-stream.post.ts:102-103 | a `data: ` line split across two reads, whose first half does not parse on its own, contributes nothing |
| ConvertStreamProperties.WholeLineRelayed | server/api/convert-stream.post.ts:106-117 | a whole `data: ` line with a parsable payload relays exactly its non-empty content |
| ConvertStreamProperties.SingleLineRead | server/api/convert-stream.post.ts:103 | a read without a line break is one line |
| ConvertStreamProperties.WrittenChunks | server/api/convert-stream.post.ts:116 | the chunk writes are exactly the chunk events |
| Convert.ValidateReply | server/api/convert.post.ts:72-84 | the reply checks in order; a failure is one of the three 500 errors "AI response missing choices", "AI response missing content", "Invalid response from AI - no HTML detected", and accepted markup has a `<` and a `>` |
| Convert.MissingChoicesReported | server/api/convert.post.ts:72-74 | absent choices, or an empty list of them, fail with 500 "AI response missing choices" |
| Convert.NoMarkupReported | server/api/convert.post.ts:81-84 | non-empty content whose trimmed form lacks a `<` or a `>` fails with 500 "Invalid response from AI - no HTML detected" |
| Convert.ValidateReplyAccepts | server/api/convert.post.ts:72-84 | the reply is accepted exactly when the first choice's content is a string whose trimmed form is non-empty and contains `<` and `>`; the accepted html is that trimmed text and is already trimmed |
| Convert.BlankContentIsNoHtml | server/api/convert.post.ts:81-84 | whitespace-only content passes the content check and fails with "Invalid response from AI - no HTML detected" |
| Convert.EmptyContentIsMissing | server/api/convert.post.ts:76-79 | missing, non-string or empty content fails with "AI response missing content" |
| Convert.Classify | server/api/convert.post.ts:96-109 | the `catch` block: a schema error is 400 "Invalid request", a status-carrying error passes unchanged, anything else is 500 "Conversion failed"; `ErrorStatuses` states the resulting statuses |
| Convert.Attempt | server/api/convert.post.ts:25-95 | the `try` block: at most two effects; any effect means the image was accepted and the key configured, and the first is the chat call with the built request; on success the body is `{html, success: true}` and the second effect inserts (fresh id, `anonymous`, html) |
| Convert.Convert | server/api/convert.post.ts:21-110 | the endpoint: at most the one chat call followed by one insert, the call first; a success always made both |
| Convert.MalformedImageIsBadRequest | server/api/convert.post.ts:99-101 | a malformed image is 400 "Invalid request" with nothing called or stored |
| Convert.MissingKeyKeepsItsMessage | server/api/convert.post.ts:40-43 | a non-string API key is 500 "API key not configured", passed on unchanged, before any call |
| Convert.ErrorStatuses | server/api/convert.post.ts:96-109 | every error the handler raises is a 400 or a 500; any other status is a status-carrying error of the chat call, passed on unchanged |
| Convert.SuccessStoresWhatItReturns | server/api/convert.post.ts:86-95 | on success the one chat call is followed by the insert of (fresh id, `anonymous`, html), and the response is `{html, success: true}` with the validated html |
| Convert.InsertAttempted | server/api/convert.post.ts:86-95 | after a validated reply the call is followed by the insert of (fresh id, `anonymous`, html); the attempt succeeds with `{html, success: true}` exactly when the insert commits |
| Convert.FailedInsertIsGeneric | server/api/convert.post.ts:86-108 | an insert that throws gives 500 "Conversion failed", after exactly the chat call and the attempted insert |
| Usage.ResolveSession | server/api/usage.get.ts:8-17 | a present, non-empty cookie is reused and nothing is set; otherwise the fresh id is used and set as an httpOnly, strict cookie with a 30-day max age, secure only in production |
| Usage.DayKey | server/api/usage.get.ts:19 | the day key holds no `T` |
| Usage.DayKeyIsDatePart | server/api/usage.get.ts:19 | the day key of `date` + `T` + time is `date` |
| Usage.DayKeyIsPrefix | server/api/usage.get.ts:19 | the day key is the timestamp's prefix before its first `T` |
| Usage.CountOf | server/api/usage.get.ts:30 | the count is the row's count when there is one; any non-zero count comes from the row |
| Usage.Summarize | server/api/usage.get.ts:31-38 | limit 5; remaining is max(0, limit - count), so between 0 and the limit for a non-negative count; `hasReachedLimit` holds exactly when count >= limit, and exactly when remaining is 0 |
| Usage.RemainingNeverGrows | server/api/usage.get.ts:36-37 | one more unit never raises what remains, and a reached limit stays reached |
| Usage.UsageOn | server/api/usage.get.ts:22-30 | a session without a row today has count 0 and the full allowance |
| Usage.GetUsage | server/api/usage.get.ts:5-43 | the response is the summary of the row for (session id, day key), or 500 "Failed to get usage" when the database fails; the cookie is set as `ResolveSession` says |
| Preview.ScriptAt | server/api/preview.post.ts:15 | the script pattern at the start of the text; a match is a non-empty deletion within the text; `ScriptMatch` states exactly when it matches |
| Preview.JavascriptAt | server/api/preview.post.ts:16 | `javascript:` in any ASCII case at the start of the text, deleted whole |
| Preview.HandlerAt | server/api/preview.post.ts:17 | the handler pattern at the start of the text, a non-empty deletion; `HandlerMatch` and `HandlerAfterChar` state what it deletes |
| Preview.RemoveScripts | server/api/preview.post.ts:15 | the first pass; `ScriptBlockRemoved` and `UnclosedOpenerKept` state what it removes and keeps |
| Preview.RemoveJavascript | server/api/preview.post.ts:16 | the second pass; `SchemeDeleted`, `SchemeFreePrefix` and `OnePassLeavesScheme` state what it removes |
| Preview.RemoveHandlers | server/api/preview.post.ts:17 | the third pass; `HandlerDeleted`, `HandlerAfterChar` and `HandlerInsideWord` state what it removes |
| Preview.Sanitize | server/api/preview.post.ts:14-17 | the three passes in source order; `SanitizeOnlyDeletes` states that they only delete |
| Preview.FindClose | server/api/preview.post.ts:15 | the scan returns the first case-insensitive `</script>` at or after its start, or reports that there is none |
| Preview.ScriptMatch | server/api/preview.post.ts:15 | a script opener matches exactly when a non-word character follows it and a `</script>` comes later, and then through the first such closer |
| Preview.ScriptBlockRemoved | server/api/preview.post.ts:15 | a script block is deleted through its first closer, and the scan resumes right after it |
| Preview.UnclosedOpenerKept | server/api/preview.post.ts:15 | an opener without a later closer is no match, so it stays |
| Preview.HandlerMatch | server/api/preview.post.ts:17 | `on` in any letter case + word characters + optional whitespace + `=` is one match, deleted whole |
| Preview.HandlerDeleted | server/api/preview.post.ts:17 | wherever the pass meets `on` in any letter case + word characters + optional whitespace + `=` (so `ONCLICK=` and `OnLoad =` too), it deletes it and resumes right after the `=` |
| Preview.HandlerAfterChar | server/api/preview.post.ts:17 | after any character, `on` in any letter case + a word run + `=` is deleted whole, even inside a word |
| Preview.HandlerInsideWord | server/api/preview.post.ts:17 | the handler pass turns `content=` into `c` |
| Preview.SchemeDeleted | server/api/preview.post.ts:16 | `javascript:` in any ASCII case at the front is deleted and the pass resumes right after it |
| Preview.OnePassLeavesScheme | server/api/preview.post.ts:16 | the single pass turns `javajavascript:script:` into `javascript:` |
| Preview.SanitizeOnlyDeletes | server/api/preview.post.ts:14-17 | the sanitised markup is a subsequence of the input, so never longer |
| Preview.Document | server/api/preview.post.ts:19-41 | the document is the constant head, the sanitised markup and the constant tail |
| Preview.DocumentInjective | server/api/preview.post.ts:19-41 | two documents are equal exactly when the markup they embed is |
| Preview.DocumentLoadsScript | server/api/preview.post.ts:25 | whatever is posted, the document contains a `<script` of its own |
| Preview.PreviewResponse | server/api/preview.post.ts:3-51 | the handler's response; `PreviewOutcomes` states its cases |
| Preview.PreviewOutcomes | server/api/preview.post.ts:3-51 | the response fails exactly for an unreadable body (500) or a missing, non-string or empty `html` (400); otherwise the document embeds the sanitised markup and is no longer than head + input + tail |
| Transformers.CommentAt | app/lib/transformers.ts:6 | `<!--` through the first `-->` on the same line, replaced by `{/* … */}`; a match is non-empty and within the text |
| Transformers.ConvertComments | app/lib/transformers.ts:6 | the comment rewrite; `CommentBecomesJsx` states its effect |
| Transformers.EventAt | app/lib/transformers.ts:7 | whitespace + `on` + lower-case letters + `=`; its replacement has the length of the match |
| Transformers.CapitaliseEvents | app/lib/transformers.ts:7 | the event rewrite; `EventCapitalised` and `CapitaliseEventsKeepsLength` state its effect |
| Transformers.CommentBecomesJsx | app/lib/transformers.ts:6 | a comment on one line, `<!--x-->`, becomes `{/* x */}` whatever follows it, and the rewrite resumes right after its `-->` |
| Transformers.CommentCloseFindsFirst | app/lib/transformers.ts:6 | the lazy comment body ends at the first `-->` |
| Transformers.NoClassAttributeSurvives | app/lib/transformers.ts:4 | no `class=` survives the rename |
| Transformers.NoForAttributeSurvives | app/lib/transformers.ts:5 | no `for=` survives the rename |
| Transformers.ForRenamedAfterAnyPrefix | app/lib/transformers.ts:5 | `for=` is renamed after any text without an `f`, so `data-for=` becomes `data-htmlFor=` |
| Transformers.EventCapitalised | app/lib/transformers.ts:7 | for every event name of lower-case letters, whitespace + `on` + name + `=` becomes a plain space + `on` + the name with its first letter upper-cased + `=`, and the rewrite resumes right after the `=` |
| Transformers.OnclickCapitalised | app/lib/transformers.ts:7 | the `click` case of `EventCapitalised` on its own: any whitespace character + `onclick=` becomes ` onClick=` |
| Transformers.TabBeforeEventBecomesSpace | app/lib/transformers.ts:7 | a tab before an event attribute turns into a space |
| Transformers.CapitaliseEventsKeepsLength | app/lib/transformers.ts:7 | capitalising event names never changes the length |
| Transformers.ReactMarkup | app/lib/transformers.ts:3-7 | the four rewrites of `htmlToReact`, in source order; `NoClassAttributeSurvives`, `NoForAttributeSurvives`, `CommentBecomesJsx` and `EventCapitalised` state their effects |
| Transformers.HtmlToReact | app/lib/transformers.ts:1-17 | the React export; `ReactCarriesTrimmedMarkup` and `ReactSeesMargins` state its properties |
| Transformers.HtmlToVue | app/lib/transformers.ts:19-28 | the Vue export; `VueCarriesTrimmedMarkup` and `VueIgnoresMargins` state its properties |
| Transformers.HtmlToSvelte | app/lib/transformers.ts:30-38 | the Svelte export; `SvelteCarriesTrimmedMarkup` and `SvelteIgnoresMargins` state its properties |
| Transformers.ReactCarriesTrimmedMarkup | app/lib/transformers.ts:10-16 | the React export is the fixed head, the trimmed rewritten markup and the fixed tail |
| Transformers.VueCarriesTrimmedMarkup | app/lib/transformers.ts:19-28 | the Vue export is the fixed head, the trimmed markup untouched, and the fixed tail |
| Transformers.SvelteCarriesTrimmedMarkup | app/lib/transformers.ts:30-38 | the Svelte export is the fixed head followed by the trimmed markup |
| Transformers.VueIgnoresMargins | app/lib/transformers.ts:26 | exporting to Vue gives the same result for the markup and its trimmed form |
| Transformers.SvelteIgnoresMargins | app/lib/transformers.ts:37 | exporting to Svelte gives the same result for the markup and its trimmed form |
| Transformers.ReactSeesMargins | app/lib/transformers.ts:7-14 | exporting ` onclick=` to React differs from exporting its trimmed form |
| Rewrite.GlobalReplace | server/api/preview.post.ts:14-17 | `replace` with a global pattern: scan left to right, emit the replacement of a match and resume after it, else copy one character |
| Rewrite.MatchStep | server/api/preview.post.ts:14-17 | a match at the front is replaced and the scan resumes right after it |
| Rewrite.ReplaceAll | app/lib/transformers.ts:4-5 | `replace` with a global literal pattern; `NoOccurrenceSurvives` states its effect |
| Rewrite.DeletionIsSubsequence | server/api/preview.post.ts:14-17 | a replace with only empty replacements only deletes characters |
| Rewrite.NoOccurrenceSurvives | app/lib/transformers.ts:4-5 | a literal replace whose replacement cannot recreate the pattern leaves no occurrence |
| Rewrite.SameLengthReplace | app/lib/transformers.ts:7 | a replace whose replacements are as long as their matches keeps the length |
| Text.Trim | app/lib/transformers.ts:14 | `trim`: the input minus a whitespace margin on each side, beginning and ending with a non-whitespace character unless empty |
| Text.TrimIdempotent | app/lib/transformers.ts:14 | trimming twice is trimming once |
| Text.TrimEmptyIff | server/api/convert.post.ts:81-82 | `trim` gives the empty string exactly for whitespace-only input |
| Text.Split | server/api/usage.get.ts:19 | `split` on one character: at least one part, none holding the separator |
| Text.JoinSplit | server/api/usage.get.ts:19 | joining the parts of `split` with the separator gives back the input |

## Left out

- The network and transport are not modelled: the `fetch`, the chat SDK, HTTP headers (the cookie header itself
  included), `res.write`/`res.end` and `readBody`. The `session_id` cookie's value and attributes are modelled. The
  upstream is given as decoded reads or as a chat reply, and response writes are trace entries.
- `UpstreamRequest` holds only the variable part of the chat request: the model and the image URL. The constant parts
  are not modelled: the system prompt, the message roles and types, `stream: true`, and the fetch headers.
- A `readBody` failure is modelled only where it lands on a generic path. In `preview.post.ts` it is `Unreadable`. In
  `convert-stream.post.ts` any failure before the id is the lone `error` event. In `convert.post.ts` the error `readBody`
  raises carries a status and is passed on unchanged; its status and message belong to the framework and are not modelled.
- `TextDecoder` is left out: reads are already-decoded strings. So is the byte-level split of multi-byte characters across reads.
- The formatter (`prettier`), `JSON.parse` and the content extraction, `crypto.randomUUID`, `Date` and the database are oracles
  or parameters. Logging and timing are dropped.
- The rate limiter's internals are not modelled: it is configured in `app/lib/arcjet.ts`, which is not part of this model. Its
  decision is an input.
- The database layer, the history and single-conversion endpoints, the test echo endpoint, configuration and analytics are not
  part of this model. The conversion row omits `imagePreview`, which the endpoints leave null, and `createdAt`, which the ORM
  sets at insert time from its default (`$defaultFn(() => new Date())` in `app/lib/schema.ts`).
- An invalid request to the streaming endpoint gets a response with the default status 200, written before any event-stream
  header is set, whose only content is an `error` event; no rejecting status is sent.
- No endpoint modelled here writes to the usage table; the usage model is read-only, as the code is.
- `Preview`: no property claims the sanitised document is safe. The passes run once, so `javajavascript:script:` leaves
  `javascript:`, and the template itself loads a script; both facts are proved instead.
- No property claims that all upstream text reaches the client: lines split across reads are dropped, and this is proved.
- Case-insensitive matching folds ASCII letters only. This is what a non-Unicode regular expression does: no non-ASCII
  character folds onto an ASCII one.
