# YouTube AI summarizer: caption normalisation, in Dafny

This project models two parts of a browser extension that summarises YouTube videos.

The first part is the caption-payload normaliser in `offscreen.js`. The `parseXML` message handler receives the raw caption payload. It rejects an empty payload and a payload the XML parser reports as malformed. It then walks the `<text>` elements in document order and turns every element whose decoded text is not blank into a segment `{text, start, duration, end}`. Times are rounded to hundredths of a second. When the document holds no `<text>` element, `tryAlternativeParsing` tries two other readings. The first is the JSON event form: `events[].segs[].utf8`, with times in milliseconds. The second is a regular-expression scan for `<text …>…</text>` spans, each given a synthetic five-second slot.

The second part is the small URL and text logic in `backend/python/transcript_api.py`. `get_video_id` takes the id from a `youtu.be` short link or from the `v` parameter of a `youtube.com` watch URL. The `/transcript` endpoint rejects a missing or empty id with status 400. Otherwise it joins the fetched caption lines with newlines.

Files and modules:

- `wrappers.dfy` (`Wrappers`): `Option` and `Result`.
- `js_string.dfy` (`JsString`): JavaScript's `trim`, its white-space set, and the line terminators that a regular expression's `.` will not cross.
- `sequences.dfy` (`Sequences`): `Array.prototype.filter`, with a lemma that says exactly which positions it keeps.
- `segments.dfy` (`Segments`): the segment record.
- `alternative_parsing.dfy` (`AlternativeParsing`): `tryAlternativeParsing`, as functions. It covers the JSON event path, the lazy regular-expression scan, tag stripping and the synthetic slots.
- `offscreen_handler.dfy` (`OffscreenHandler`): the `parseXML` handler as the method `HandleParseXml`. Its loop over the `<text>` elements (offscreen.js:38-54) is the method `CollectSegments`, which the handler calls. That method is a `while` loop proved against the function `PrimarySegments`.
- `transcript_api.dfy` (`TranscriptApi`): `get_video_id`, the newline join (with a split function as its inverse), and the endpoint's result.

Collaborators that the model takes as inputs:

- The browser's `DOMParser` result arrives as `XmlDocument`: either a reported syntax error with its text, or the `<text>` elements, each with its text content and its `start`/`dur` attributes already parsed to numbers.
- The outcome of `JSON.parse` plus the `events` test arrives as `JsonPayload`.
- `decodeHTMLEntities` is an arbitrary function `decode`, so every property holds whatever that function does.
- On the Python side, the URL arrives as `urlparse`/`parse_qs` leave it: a host name, a path and a query map. The transcript library's fetch is the function `fetch`.

Some behaviours of the code that a reader might not expect, all modelled as written:

- On the JSON path the segment text is not trimmed. Only the filter trims, to test for blankness.
- A syntax error reported by the XML parser ends the handler with a failure. It does not fall back to the JSON or regex readings.
- `end` is the rounded sum of the unrounded times. So `end` can differ from the rounded `start` plus the rounded `duration` (`CueEndNotRoundedSum`).
- `get_video_id` returns no id for `/shorts/…` URLs without a `v` parameter, and for YouTube host names other than `youtu.be`, `www.youtube.com` and `youtube.com`.
- The backend joins caption lines with single newlines.

## Model

| member | source | states |
|---|---|---|
| `JsString.Trim` | offscreen.js:46-48 | the trimmed text is empty exactly when the text is blank, and otherwise neither starts nor ends with white space |
| `JsString.TrimIsSlice` | offscreen.js:48 | `trim` keeps one contiguous piece of the text and drops only white space on either side |
| `JsString.TrimIdempotent` | offscreen.js:46-48 | trimming an already trimmed text changes nothing, so the text the loop stores passes its own blankness test unchanged |
| `Sequences.Filter` | offscreen.js:75 | a filter returns no more elements than it is given, and every element it returns passes the test |
| `Sequences.FilterByIndices` | offscreen.js:92 | a filter's k-th output is the input at the k-th kept position; kept positions increase; a position is kept if and only if its element passes the test |
| `Sequences.FilterAll` | offscreen.js:75 | when every element passes the test, the filter returns its input unchanged |
| `AlternativeParsing.JoinUtf8` | offscreen.js:71 | joining the `utf8` fragments (a missing one joins as empty) gives exactly as many characters as the present fragments hold |
| `AlternativeParsing.JoinUtf8Single` | offscreen.js:71 | one present fragment joins to itself; one missing fragment joins to the empty text |
| `AlternativeParsing.JoinUtf8Append` | offscreen.js:71 | joining two runs of fragments one after the other is joining each run and concatenating, so the join keeps every fragment, in order, with no separator |
| `AlternativeParsing.EventSegment` | offscreen.js:70-74 | an event's segment carries the joined text, `start = tStartMs/1000`, `duration = dDurationMs/1000`, `end = (tStartMs+dDurationMs)/1000`, so `end = start + duration` |
| `AlternativeParsing.JsonSegmentsByEvent` | offscreen.js:69-76 | the JSON path keeps exactly the events whose joined text is not blank, in event order, each mapped to its event segment |
| `AlternativeParsing.JsonSegmentsAllKept` | offscreen.js:70-75 | when no event's text is blank, there is exactly one segment per event, in order |
| `AlternativeParsing.MatchEndSound` | offscreen.js:82 | a match found at a position is a lazy match of `<text[^>]*>(.*?)<\/text>`: it runs to the first `>`, then to the first `</text>` after it, with no line terminator in between |
| `AlternativeParsing.MatchEndComplete` | offscreen.js:82 | every lazy match of the expression at a position is the one `MatchEnd` finds (the declarative and the scanning readings agree) |
| `AlternativeParsing.MatchAllShape` | offscreen.js:82-83 | every string the global scan returns starts with `<text` and ends with `</text>` |
| `AlternativeParsing.MatchAllLeftmost` | offscreen.js:82 | the global scan's first result is the match at the leftmost position where one starts, and the scan resumes right after that match |
| `AlternativeParsing.MatchAllNone` | offscreen.js:82-83 | when no match starts anywhere from the scan position on, the scan returns nothing (and the source's `null` leads to the empty result) |
| `AlternativeParsing.StripTags` | offscreen.js:85 | after removing `<…>` spans, no `<` is followed anywhere later by a `>`, and the text is no longer than before |
| `AlternativeParsing.StripTagsNoTag` | offscreen.js:85 | a text with no complete tag is left unchanged by tag stripping |
| `AlternativeParsing.StripTagsIdempotent` | offscreen.js:85 | stripping tags twice is the same as stripping them once |
| `AlternativeParsing.StripTagsPlain` | offscreen.js:85 | text before the first `<` is kept unchanged, in front of the stripped rest |
| `AlternativeParsing.StripTagsTag` | offscreen.js:85 | a `<`, everything up to the next `>`, and that `>` are removed, and stripping goes on after it |
| `AlternativeParsing.StripTagsUnclosed` | offscreen.js:85 | a `<` with no `>` after it is kept, with all the text that follows |
| `AlternativeParsing.RegexSegment` | offscreen.js:84-91 | the match at position `i` among all matches gets `start = 5*i`, `duration = 5`, `end = start + 5`, and a trimmed text |
| `AlternativeParsing.RegexSegmentsBySlot` | offscreen.js:82-93 | the regex path keeps exactly the matches whose stripped, decoded, trimmed text is non-empty, in scan order; each keeps the slot of its position before filtering, so dropped matches leave gaps; slots never overlap |
| `AlternativeParsing.TryAlternativeParsing` | offscreen.js:65-96 | an `events` list is always read as JSON and the regex scan never runs after it, even when it yields nothing; otherwise the result is the regex reading; every recovered segment has non-blank text and `end = start + duration`; the JSON path yields at most one segment per event; the regex path gives every segment the 5-second duration |
| `AlternativeParsing.AlternativeNothing` | offscreen.js:81-96 | without an `events` list and with no match of the expression anywhere, the result is empty |
| `OffscreenHandler.Round2Bounds` | offscreen.js:49-51 | rounding to two decimals moves a value by more than -0.005 and at most +0.005, onto a whole number of hundredths |
| `OffscreenHandler.Round2Exact` | offscreen.js:49-51 | a value already in hundredths is unchanged by rounding |
| `OffscreenHandler.Round2Idempotent` | offscreen.js:49-51 | rounding twice is rounding once |
| `OffscreenHandler.CueSpec` | offscreen.js:42-51 | an element's segment has the trimmed decoded text; a missing `start`/`dur` counts as 0; times are rounded to hundredths; `end` is the rounded unrounded sum, within 0.01 of rounded `start` plus rounded `duration` |
| `OffscreenHandler.CueStable` | offscreen.js:46-51 | the stored text is already trimmed and the stored times already rounded: trimming or rounding again changes nothing |
| `OffscreenHandler.CueEndNotRoundedSum` | offscreen.js:49-51 | with `start = dur = 1.004`, the segment has start 1.0 and duration 1.0 but end 2.01 |
| `OffscreenHandler.PrimarySegmentsStep` | offscreen.js:41-53 | one loop iteration appends the element's rounded segment when its trimmed decoded text is non-empty, and nothing otherwise |
| `OffscreenHandler.PrimarySegmentsByElement` | offscreen.js:38-54 | the primary path keeps exactly the elements whose decoded text is not blank, in document order, so it returns at most one segment per element, each with non-blank text |
| `OffscreenHandler.PrimaryAllBlank` | offscreen.js:46 | when every element's decoded text is blank, the primary transcript is empty |
| `OffscreenHandler.CollectSegments` | offscreen.js:38-54 | the loop over the `<text>` elements builds exactly the primary transcript |
| `OffscreenHandler.HandleParseXml` | offscreen.js:1-63 | missing payload gives the thrown TypeError's message; blank payload gives "Empty XML content"; a parser error gives "XML parsing failed: " plus its text, with no fallback; zero elements gives the fallback result if non-empty, else "No text elements found in XML"; otherwise success with the primary transcript |
| `TranscriptApi.GetVideoId` | backend/python/transcript_api.py:11-17 | an id comes only from the three accepted hosts; `youtu.be` always gives the path minus its first character; a watch host gives an id exactly when `v` is present, and then it is the first `v` value |
| `TranscriptApi.ShortLinkRoundTrip` | backend/python/transcript_api.py:13-14 | `youtu.be/<id>` gives back `<id>` |
| `TranscriptApi.WatchLinkRoundTrip` | backend/python/transcript_api.py:15-16 | a watch URL on either accepted host gives the first `v` value, whatever the path and the rest of the query |
| `TranscriptApi.OtherShapesGiveNone` | backend/python/transcript_api.py:15-17 | a `/shorts/` URL without `v`, another YouTube subdomain, and a URL without a host all give no id |
| `TranscriptApi.SplitLines` | backend/python/transcript_api.py:28 | splitting at newlines always yields at least one piece (the inverse used for the join) |
| `TranscriptApi.SplitLinesPrefix` | backend/python/transcript_api.py:28 | a text without newlines splits into itself, and a newline after it starts the next piece |
| `TranscriptApi.SplitJoinLines` | backend/python/transcript_api.py:28 | splitting the newline-joined text returns the texts, so separators stand only between consecutive texts |
| `TranscriptApi.JoinLinesLength` | backend/python/transcript_api.py:28 | the joined text's length is the sum of the text lengths plus count - 1 (0 for no texts) |
| `TranscriptApi.JoinLinesSnoc` | backend/python/transcript_api.py:28 | appending a text adds exactly one newline and that text |
| `TranscriptApi.GetTranscript` | backend/python/transcript_api.py:19-32 | the reply is 400 "Invalid YouTube URL" exactly when the id is missing or empty; a 200 reply carries a transcript; the status is 200, 400 or 500 |
| `TranscriptApi.InvalidIdSkipsFetch` | backend/python/transcript_api.py:23-25 | for a missing or empty id, the reply does not depend on the transcript source |
| `TranscriptApi.EmptyShortLinkIsInvalid` | backend/python/transcript_api.py:13-14 | `https://youtu.be/` yields the empty id and so the 400 reply |
| `TranscriptApi.TranscriptLines` | backend/python/transcript_api.py:26-30 | a successful fetch gives 200 with exactly the entries' texts joined by single newlines: length is total plus separators, empty for no entries, and splitting gives the texts back |

## Left out

- Chrome messaging, `console` logging, and the construction of `DOMParser` and the `textarea` used by `decodeHTMLEntities` (offscreen.js:1-4, 12-16, 24-25, 56, 98-102). These are browser APIs. Their results are inputs, and `decodeHTMLEntities` is an arbitrary function parameter.
- IEEE-754 arithmetic. Times are exact reals, and `parseFloat` is taken as already applied. An attribute that `parseFloat` cannot read gives NaN in the source; the model's attribute is a number or absent.
- JSON events without `tStartMs` or `dDurationMs`. The source computes NaN times for them; the model requires both as whole milliseconds. Non-string `utf8` values, coerced by `join`, are not modelled either.
- JSON payloads whose `events` cannot be mapped because `.map` throws. The source then falls through to the regex scan; the model folds these into `WithoutEvents`.
- The exception catch of the handler (offscreen.js:58-61), beyond a missing payload. The payload is taken to be a string or absent. For an absent one the model gives the message Chrome's engine gives for reading `substring` of `undefined`. A `null` payload gets a different engine message, and a truthy non-string payload throws "message.xmlText.substring is not a function"; neither is modelled. Exceptions from `decodeHTMLEntities` or the DOM are not modelled either.
- The Flask app, CORS, request JSON decoding, and `urlparse`/`parse_qs` (backend/python/transcript_api.py:1-9, 21-22, 34-36). The URL arrives already split. The transcript library call is the parameter `fetch`, and an exception it raises is its error message.
- `backend/node/server.js`, `server.js`, `groq.js`, `backend/node/groq.js`, `frontend/scripts.js`, `scripts.js` and `background.js`. These are request routing, SDK wrappers, UI handlers and a message acknowledger, around external services.
